# Shader-file splitter of quark, in Dafny

quark's `main.cpp` draws two triangles with a shader program whose source is
read from one text file holding both stages. `parse_shader` splits that file:
it reads it line by line with `std::getline`, keeps a section selector
(`NONE`, `VERTEX`, `FRAGMENT`, starting at `NONE`), treats a line containing
`#shader` as a marker (it selects `VERTEX` if it also contains `vertex`, else
`FRAGMENT` if it contains `fragment`, else changes nothing), appends every other
line plus `'\n'` to the stream of the selected section, and returns the two
texts as a `ShaderSource { vertexSource, fragmentSource }`.

The project has two modules:

- `Strings` (`strings.dfy`) models the library behaviour the splitter relies on:
  `Contains` is `line.find(sub) != npos`, characterised by the occurrences of
  `sub`. `Lines` is the sequence of lines successive `std::getline` calls
  extract: split at '\n', '\r' kept, no empty line after a final '\n'.
  `GetLine` is one such call, a loop that scans to the next '\n'. `JoinLines` is
  what `ss << line << '\n'` accumulates. The round trips between `Lines` and
  `JoinLines` are proved in both directions.
- `ShaderParser` (`shader_parser.dfy`) holds the selector `ShaderType`, the
  result `ShaderSource` and the opened or failed file `Stream`. The imperative
  `ParseShader` mirrors the C++ loop: `GetLine`, the marker tests, the
  reassignment of the selector and the appends to two accumulators. It is proved
  equal to `Parse(Lines(contents))`. `Parse` is the specification: each
  non-marker line goes, in input order, to the section selected when it is read
  (`Routed`). Lemmas about `Parse` and `Routed` state what the splitter
  guarantees.

Lines read while the selector is `NONE` are routed to a discard sink, the
`None` target of `Routed`. The C++ writes them to `ss[-1]` instead (see
Findings).

When the file cannot be opened, the code does not abort: `std::fstream`
fails silently, the first `std::getline` fails, and both outputs are empty.
`ParseShader` models exactly that (`Stream.Failed`). `main`
(src/main.cpp:81-82) does not check the result and passes the two empty texts
straight to `create_shader`.

## Model

| member | source | states |
|---|---|---|
| `Strings.ContainsIsOccurrence` | src/main.cpp:113-116 | `find(sub) != npos` holds exactly when `sub` occurs in the line at some index |
| `Strings.LinesHaveNoNewline` | src/main.cpp:112 | the lines `std::getline` extracts contain no '\n', and there are none exactly when the text is empty |
| `Strings.GetLine` | src/main.cpp:112 | one `std::getline` call fails exactly at end of input; otherwise it returns the next line and moves past its '\n' so that the lines still to come are the rest of `Lines` |
| `Strings.LinesOfJoinLines` | src/main.cpp:112-120 | splitting the accumulated text of lines free of '\n' gives back exactly those lines |
| `Strings.JoinLinesOfLines` | src/main.cpp:112-120 | re-accumulating the extracted lines gives the text back, with one '\n' added when a non-empty text did not end in '\n'; '\r' and all other characters are kept |
| `Strings.JoinLinesAppend` | src/main.cpp:120 | appending lines to a stream appends their text after what it already holds |
| `Strings.JoinLinesShape` | src/main.cpp:120-124 | an output is empty exactly when no line was routed to it, otherwise ends in '\n', and its length is the sum of (line length + 1) over the routed lines |
| `Strings.JoinLinesAvoids` | src/main.cpp:120 | text made of lines and '\n's contains a '\n'-free string only if one of the lines does |
| `ShaderParser.ParseShader` | src/main.cpp:99-125 | the loop returns `Parse(Lines(contents))` for an opened file and two empty texts for a file that failed to open |
| `ShaderParser.ReadLine` | src/main.cpp:113-121 | reading one more line moves the selector as the marker tests say and appends the line plus '\n' to the selected section only if it is not a marker |
| `ShaderParser.RoutedAppend` | src/main.cpp:112-121 | reading `a` then `b` routes the lines of `a`, then those of `b` with the selector where `a` left it: lines reach each output in input order |
| `ShaderParser.RoutedExcludesMarkers` | src/main.cpp:113-121 | no line containing `#shader` is ever appended to a section or to the discard sink |
| `ShaderParser.OutputsOmitMarkerText` | src/main.cpp:113-124 | the text `#shader` occurs in neither `vertexSource` nor `fragmentSource` |
| `ShaderParser.RoutingPartitions` | src/main.cpp:110-121 | every non-marker line goes to exactly one of the vertex section, the fragment section and the discard sink |
| `ShaderParser.UniformSection` | src/main.cpp:113-120 | lines none of which is a marker naming a section leave the selector unchanged and all go, markers excepted, to the section it names |
| `ShaderParser.SectionBlock` | src/main.cpp:113-120 | after a marker naming a section, a block naming none goes to that section whatever was selected before |
| `ShaderParser.TwoBlocks` | src/main.cpp:107-124 | for a preamble and two marker-introduced blocks, the preamble is discarded and each block goes to the section its marker names |
| `ShaderParser.TwoBlocksAfter` | src/main.cpp:113-120 | two marker-introduced blocks go, each in its input order, to the sections their markers name, whatever was selected before |
| `ShaderParser.SwapSections` | src/main.cpp:114-124 | a vertex block and a fragment block give the same `vertexSource` and `fragmentSource` in either order: each block's lines with '\n' after each |
| `ShaderParser.VertexTestedFirst` | src/main.cpp:114-117 | a marker containing both `vertex` and `fragment` selects the vertex section |
| `ShaderParser.UnrecognisedMarkerIsNoOp` | src/main.cpp:113-118 | a marker naming neither section is dropped and changes nothing: the file parses as if it were absent |
| `ShaderParser.PreambleDiscarded` | src/main.cpp:107-120 | lines before the first marker naming a section all go to the discard sink and change neither output |
| `ShaderParser.NoMarkerNoOutput` | src/main.cpp:107-124 | a file with no marker naming a section gives two empty outputs |
| `ShaderParser.ExampleLines` | src/main.cpp:112 | four '\n'-terminated lines are read back as those four lines |
| `ShaderParser.ExampleParse` | src/main.cpp:112-124 | vertex marker, line, fragment marker, same line: each output is that line plus '\n' |
| `ShaderParser.ExampleFile` | src/main.cpp:112-124 | the file `#shader vertex`, `void main() {}`, `#shader fragment`, `void main() {}` gives `"void main() {}\n"` for both outputs |
| `ShaderParser.AsWrittenPreambleIndexOutOfRange` | src/main.cpp:103-120 | as written, a non-marker line read before any marker naming a section is written to stream index -1, outside the two-element array: that very line is the one the `None` selector receives |

## Left out

- Opening the file (`std::fstream`, src/main.cpp:101) is I/O: the model takes the file's contents, or `Stream.Failed` for a file that could not be opened.
- `std::string::find` is modelled only as the yes/no answer the code uses, not as the position it returns.
- `ss[(int)type]` on the two-element `std::stringstream` array is modelled as two named accumulators plus a discard branch. An out-of-range write to `ss[-1]` is undefined behaviour and cannot be given a meaning. `StreamIndex` records the index the C++ computes.
- `compile_shader` and `create_shader` (src/main.cpp:127-175) are sequences of OpenGL calls. Their results (compile status, info log, handles) come from the GL driver.
- `main` (src/main.cpp:33-97) is windowing, buffer upload and the render loop via GLFW, GLEW and OpenGL. It also uses static floating-point vertex data.
- src/main.c is only GLFW and immediate-mode OpenGL calls and has no logic of its own.

## Findings

| source | as written | input that shows it | evidently intended | confidence | as-written member | corrected member |
|---|---|---|---|---|---|---|
| src/main.cpp:103-120 | `ss[(int)type] << line << '\n'` while `type == ShaderType::NONE`, whose value is -1, writes to `ss[-1]` of `std::stringstream ss[2]` | a file whose first line is a comment such as `// basic shader`, before any `#shader vertex` line | lines before the first section marker are dropped and reach neither output | not executed; follows from the enumerator value -1 and the array size 2 | `ShaderParser.AsWrittenPreambleIndexOutOfRange` | `ShaderParser.PreambleDiscarded` |
