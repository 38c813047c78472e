# Markdown converter core, modelled in Dafny

The backend of the Markdown converter accepts Markdown text and exports it as PDF or
DOCX. This project models the deterministic logic that backend applies around the
libraries it calls:

- **Bullet normalisation** (`normalize_markdown_bullets`, module `Bullets`). Each line
  becomes one output line. A line that starts with an en/em dash or a bullet-like glyph
  gets a standard `- ` marker. A leading dash gets a space after it. A blank line is
  inserted between a heading and a list item that directly follows it. Lines inside
  fenced code blocks (``` or ~~~) pass through unchanged. The model runs over the list
  of lines. It is given three times, each proved equal to the next:
  - `Loop`/`Step` mirror the source loop, including its `normalized_lines[-1] != ""`
    check;
  - `Go` is a plain recursion that drops that check, which is proved always true when
    reached;
  - `Reference` is declarative: a line's output depends only on how many fence lines
    come before it and on the previous input line.
- **DOCX block mapping** (`convert_to_docx`, module `Docx`). The document library's
  calls are replaced by a list of blocks. Each block is either a heading of some level
  or a paragraph of plain and bold runs. The title is a level-0 heading. Each stripped
  line of `content.split('\n')` is then handled in order:
  - empty lines, and lines starting with three backticks, are skipped;
  - `# ` to `#### ` give headings of level 1 to 4;
  - everything else gives a paragraph whose runs alternate plain and bold around `**`,
    cut at the leftmost `**` as `split` cuts.
- **Style settings** (module `Style`). Each optional setting falls back to its default
  when it is absent or falsy. The resolved values are spliced into the override style
  sheet. Integers are written in decimal, as Python's `str` writes them.
- **Download registry** (module `Downloads`). This is the `temp_files` map from file id
  to path and download name. It covers:
  - how an export records its file and answers with `/api/download/<id>`;
  - how a download answers 404 for an unknown id or a file no longer on disk, and
    otherwise streams the stored file under its stored name.

  File ids (`uuid4`), the temporary directory and the set of paths present on disk are
  parameters.

Python's string operations live in module `Text`. The core calls:
- `str.isspace` (as the `\s` class) and `strip`;
- `startswith`;
- `in`, `split` and `replace(' ', '_')`.

`split` cuts at the leftmost non-overlapping occurrences, as Python's does
(`Text.SplitLeftmost`). The core never calls `endswith`, `count` or `replace(sep, "")`.
Its only string `join` is the `"\n".join` that ends the bullet normaliser, which is left out,
as noted below. `EndsWith`, `JoinWith`, `Count` and `RemoveAll` are modelled only to state
what the calls above compute. Sequence
bookkeeping lemmas live in module `Seqs`.

The regular expressions are modelled as predicates on one line:
- `\s` is exactly the set of characters for which Python's `str.isspace` holds;
- in the dash rule `^(\s*)-(?!\s)(.*)$`, `.` does not match a newline and `$` may also
  match just before a final newline.

The dash rule also rewrites a Markdown thematic break: `---` becomes `- --`
(`Bullets.ThematicBreakQuirk`). The model keeps this behaviour, because it is what the
code does.

`convert_to_docx` maps lines to headings and paragraphs only: lists, tables and code
blocks get no special treatment, and the model follows the code. Inside a fenced code
block, each line goes through the same classification as any other line:
- only a line starting with three backticks is skipped, so a `~~~` fence line becomes a
  paragraph;
- a code line loses its indentation to `strip`, and a blank code line is dropped;
- a code line such as `# comment` becomes a level-1 heading;
- `**` inside code splits it into bold and plain runs.

## Model

| member | source | states |
|---|---|---|
| Bullets.Normalize | backend/main.py:54-100 | Empty input gives empty output. Otherwise the output has at least as many lines as the input, because lines are only ever added. |
| Bullets.NormalizeIsReference | backend/main.py:65-100 | The loop's output equals the declarative reading, line by line. A fence line, or a line after an odd number of fence lines, is copied unchanged. A line whose predecessor is a heading and whose rewrite starts a list is preceded by one blank line. Every other line is rewritten. |
| Bullets.FenceParity | backend/main.py:67-98 | After the loop, the code-fence flag is set exactly when an odd number of lines matched the fence pattern. The remembered previous line is the last input line. |
| Bullets.LoopIsGo | backend/main.py:92-95 | Whenever the blank-line insertion is considered, the output so far is non-empty and its last line is non-empty, so the `normalized_lines[-1] != ""` guard never blocks an insertion. |
| Bullets.GlyphBecomesDash | backend/main.py:85-87 | A line whose first non-space character is one of the six glyphs becomes its indentation, then `- `, then the rest with leading whitespace removed. |
| Bullets.DashGetsOneSpace | backend/main.py:89-90 | A line with a bare leading dash becomes its indentation, then `- `, then everything after the dash. A bare leading dash is one where the first non-space character is `-`, no whitespace follows that dash, and the text after it has no newline except possibly as its last character. Exactly one space is inserted after the dash, and nothing else changes. |
| Bullets.RewriteFixedPoint | backend/main.py:84-90 | The rewrite leaves a line unchanged exactly when the line has neither a leading glyph nor a leading dash that lacks a following space. |
| Bullets.RewriteNormalForm | backend/main.py:54-90 | After the rewrite, no line starts with a glyph or with a dash that lacks a space after it, and the indentation is unchanged. |
| Bullets.RewriteIdempotent | backend/main.py:84-90 | Rewriting a rewritten line changes nothing. |
| Bullets.RewriteKeepsKind | backend/main.py:70-90 | A line is a fence line, or a heading, exactly when its rewrite is one. The rewrite never moves a line into or out of these kinds. |
| Bullets.ThematicBreakQuirk | backend/main.py:90 | The dash rule turns the thematic break `---` into the list item `- --`. |
| Bullets.NormalizeIdempotent | backend/main.py:54-100 | Normalising already-normalised lines gives them back unchanged. This holds for lists of lines only. On whole strings the Python function is not idempotent, because `splitlines` drops a final line terminator: `"a\n\n"` becomes `"a\n"`, and that becomes `"a"`. |
| Text.Strip | backend/main.py:474 | The stripped line is a contiguous slice of the line, starting after its leading whitespace. Everything removed is whitespace. The result is empty or begins and ends with non-whitespace. |
| Text.JoinSplit | backend/main.py:498 | Joining the parts of `split(sep)` with `sep` gives back the original text. |
| Text.SplitCount | backend/main.py:498 | `split(sep)` yields one more part than there are non-overlapping occurrences of `sep`. |
| Text.ConcatSplit | backend/main.py:498-503 | The parts of `split(sep)` concatenated are the text with every occurrence of `sep` removed. |
| Text.SplitWithoutSeparator | backend/main.py:497-505 | `split(sep)` returns the whole text as its only part exactly when `sep` does not occur in it. |
| Text.SplitLeftmost | backend/main.py:498 | `split(sep)` cuts at the leftmost occurrences. No part but the last contains `sep`, even together with the start of the separator that follows it. The last part contains none. |
| Text.SplitUnique | backend/main.py:498 | Any parts cut at the leftmost occurrences that join back to a text are exactly that text's `split(sep)`. Together with `JoinSplit`, this fixes the parts. |
| Docx.BoldItalicRuns | backend/main.py:496-503 | `***bold***` gives runs `""` (plain), `*bold` (bold) and `*` (plain), as Python's leftmost `split('**')` does. |
| Docx.Runs | backend/main.py:496-505 | A paragraph line gets one more run than it has `**` markers. Run i is bold exactly when i is odd. The run texts joined with `**` give the line back. Their plain concatenation is the line with every `**` removed. The cuts are at the leftmost markers (`Leftmost`). |
| Docx.ClassifyHeading | backend/main.py:474-486 | A line gives a heading of level n with text t exactly when 1 <= n <= 4, the stripped line starts with n hashes and a space, and t is the rest of the stripped line. |
| Docx.ClassifySkip | backend/main.py:474-489 | A line gives no block exactly when the stripped line is empty or starts with three backticks. |
| Docx.ClassifyParagraph | backend/main.py:490-505 | Every other line gives one paragraph built from the stripped line's runs. |
| Docx.BlocksAppend | backend/main.py:471-473 | Lines are handled independently and in order: the blocks of two stretches of lines are the blocks of the first stretch followed by those of the second. |
| Docx.BlocksShape | backend/main.py:473-505 | One block is produced per kept line. Every heading produced from content has level 1 to 4. |
| Docx.DocumentShape | backend/main.py:467-505 | The document starts with the title as a level-0 heading, followed by one block per kept line. No later heading has level 0. |
| Style.Resolve | backend/main.py:373-377 | Each resolved value is the request's own value when the settings are present and that value is truthy, and the default otherwise (the system font stack, 24, 20, 16, 12). No resolved value is empty or zero. |
| Style.ResolveExplicit | backend/main.py:373-377 | Settings that spell out resolved values resolve to those same values. |
| Style.ParseIntToString | backend/main.py:382-386 | Reading back the decimal text that `str` gives for an integer yields that integer. |
| Style.CssOverrideInjective | backend/main.py:380-388 | The override style sheet determines the font and all four sizes it was built from: different fonts or sizes always give different style sheets. |
| Style.BodyTakesParagraphSize | backend/main.py:380-382 | The style sheet opens with the body rule, which carries the font and the paragraph size. |
| Style.CodeTakesParagraphSize | backend/main.py:386-388 | The style sheet closes with the code rule, which also carries the paragraph size. |
| Downloads.FileName | backend/main.py:518 | The download name is the title with each space turned into `_` and every other character kept, followed by `.docx` (`.pdf` for the PDF export, line 441). |
| Downloads.JoinPath | backend/main.py:510 | The joined path ends with the file name. |
| Downloads.Register | backend/main.py:516-519 | After an export (the PDF export records its file the same way at lines 439-442), the registry holds the new id with its path and download name. Every other id keeps its entry. No other id is added. |
| Downloads.DownloadFile | backend/main.py:530-546 | The answer is a 404 exactly when the id is unknown or its path is not on disk. Otherwise it is the stored path, under the stored download name. |
| Downloads.ExportThenDownload | backend/main.py:516-546 | An export reports success and a download URL naming its id. Downloading that id gives the new file under the title-derived name if the file is on disk, and a 404 otherwise. |
| Downloads.RegisterIsolated | backend/main.py:516-546 | Recording a file under one id never changes what a download of any other id returns. |

## Left out

- The line boundary of the bullet normaliser. The model maps a list of lines to a list of lines. `str.splitlines` and `"\n".join` are not modelled, so no statement is made about the whole string: `splitlines` also splits at characters such as `\r`, `\x0b` and `\u2028`, and it drops a final newline.
- Bullets.Normalize: `\d` in the list-start pattern is modelled as the ASCII digits only. Python's `\d` also matches other Unicode decimal digits.
- The Markdown to HTML conversion, the HTML sanitiser, the static CSS template and the assembly of the HTML document. These are calls into libraries or fixed text, outside the core.
- Rendering the PDF in a headless browser, and writing the DOCX file with the document library. Both are I/O. The DOCX file is represented by its list of blocks.
- The Markdown conversion in the DOCX endpoint (`markdown.Markdown(...).convert`). Its result is never used.
- `uuid4`, `tempfile.gettempdir` and `os.path.exists`. The first two are parameters of the export. The third is the set of paths on disk passed to the download.
- The web framework: routing, CORS, request validation, the root endpoint `GET /` with its fixed message, and turning an exception into a 500 answer.
- A null title. The model takes the title as a string. In the source, `None.replace` raises, and the export answers 500.
- Removing temporary files. The source never removes them, so the registry only grows.
