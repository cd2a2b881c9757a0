/** The shader-file splitter `parse_shader`: one text file holds a vertex and a
    fragment shader, each section introduced by a marker line containing
    `#shader` together with `vertex` or `fragment`. The lines of each
    section are collected, each followed by '\n', into a `ShaderSource`. */
module ShaderParser {
  import opened Strings

  /** The section selector. `None` is its state before the first marker that
      names a section; lines read in that state are discarded. */
  datatype ShaderType = None | Vertex | Fragment

  /** The splitter's result: the text of the two shader stages. */
  datatype ShaderSource = ShaderSource(vertexSource: string, fragmentSource: string)

  /** The file stream the splitter reads: `Failed` when it could not be opened. */
  datatype Stream = Failed | Open(contents: string)

  /** A marker line: one that contains `#shader`. */
  predicate IsMarker(line: string)
  {
    Contains(line, "#shader")
  }

  /** A marker line that selects the vertex section. */
  predicate VertexMarker(line: string)
  {
    IsMarker(line) && Contains(line, "vertex")
  }

  /** A marker line that selects the fragment section. */
  predicate FragmentMarker(line: string)
  {
    IsMarker(line) && !Contains(line, "vertex") && Contains(line, "fragment")
  }

  /** A marker line that names a section and so switches the selector. */
  predicate Selects(line: string)
  {
    VertexMarker(line) || FragmentMarker(line)
  }

  /** The selector after reading `line` with the selector at `t`: `vertex` is
      tested before `fragment`, and any other line leaves it unchanged. */
  function Next(t: ShaderType, line: string): (u: ShaderType)
  {
    if VertexMarker(line) then Vertex
    else if FragmentMarker(line) then Fragment
    else t
  }

  /** The selector after reading all of `lines`, starting at `t`. */
  function TypeAfter(t: ShaderType, lines: seq<string>): (u: ShaderType)
    decreases |lines|
  {
    if lines == [] then t else TypeAfter(Next(t, lines[0]), lines[1..])
  }

  /** The lines of `lines`, read with the selector starting at `t`, that go to
      the stream of section `target`, in input order: each non-marker line goes
      to the section selected when it is read. For `target == None` these are
      the discarded lines. */
  function Routed(t: ShaderType, lines: seq<string>, target: ShaderType): (routed: seq<string>)
    decreases |lines|
  {
    if lines == [] then []
    else
      (if !IsMarker(lines[0]) && t == target then [lines[0]] else [])
      + Routed(Next(t, lines[0]), lines[1..], target)
  }

  /** The lines that are not markers, in input order. */
  function NonMarkers(lines: seq<string>): (kept: seq<string>)
  {
    if lines == [] then []
    else (if IsMarker(lines[0]) then [] else [lines[0]]) + NonMarkers(lines[1..])
  }

  /** What the splitter returns for a file made of `lines`. */
  function Parse(lines: seq<string>): (source: ShaderSource)
  {
    ShaderSource(JoinLines(Routed(None, lines, Vertex)), JoinLines(Routed(None, lines, Fragment)))
  }

  /** No line of `lines` switches the selector. */
  ghost predicate NoSelects(lines: seq<string>)
  {
    forall l :: l in lines ==> !Selects(l)
  }

  /** Reading `a` and then `b` routes the lines of `a` and then, with the
      selector where `a` left it, the lines of `b`. */
  lemma {:induction false} RoutedAppend(t: ShaderType, a: seq<string>, b: seq<string>, target: ShaderType)
    ensures TypeAfter(t, a + b) == TypeAfter(TypeAfter(t, a), b)
    ensures Routed(t, a + b, target) == Routed(t, a, target) + Routed(TypeAfter(t, a), b, target)
    decreases |a|
  {
    if a == [] {
      assert a + b == b;
    } else {
      assert (a + b)[0] == a[0] && (a + b)[1..] == a[1..] + b;
      RoutedAppend(Next(t, a[0]), a[1..], b, target);
    }
  }

  /** Reading one more line: the selector moves as `Next` says, and the line is
      appended to the selected section's lines unless it is a marker. */
  lemma RoutedSnoc(t: ShaderType, read: seq<string>, line: string, target: ShaderType)
    ensures TypeAfter(t, read + [line]) == Next(TypeAfter(t, read), line)
    ensures Routed(t, read + [line], target)
         == Routed(t, read, target)
          + (if !IsMarker(line) && TypeAfter(t, read) == target then [line] else [])
  {
    RoutedAppend(t, read, [line], target);
    assert [line][1..] == [];
  }

  /** The text of section `target` after one more line is read. */
  lemma JoinRoutedSnoc(read: seq<string>, line: string, target: ShaderType)
    ensures JoinLines(Routed(None, read + [line], target))
         == JoinLines(Routed(None, read, target))
          + (if !IsMarker(line) && TypeAfter(None, read) == target then line + "\n" else "")
  {
    RoutedSnoc(None, read, line, target);
    var extra := if !IsMarker(line) && TypeAfter(None, read) == target then [line] else [];
    JoinLinesAppend(Routed(None, read, target), extra);
    if extra == [] {
      assert JoinLines(extra) == "";
    } else {
      assert JoinLines(extra) == line + "\n" + JoinLines([]);
    }
  }

  /** Reading `line` after `read`, from the selector's initial state: how the
      selector and the text of both sections change. */
  lemma ReadLine(read: seq<string>, line: string)
    ensures TypeAfter(None, read + [line]) == Next(TypeAfter(None, read), line)
    ensures JoinLines(Routed(None, read + [line], Vertex))
         == JoinLines(Routed(None, read, Vertex))
          + (if !IsMarker(line) && TypeAfter(None, read) == Vertex then line + "\n" else "")
    ensures JoinLines(Routed(None, read + [line], Fragment))
         == JoinLines(Routed(None, read, Fragment))
          + (if !IsMarker(line) && TypeAfter(None, read) == Fragment then line + "\n" else "")
  {
    RoutedSnoc(None, read, line, Vertex);
    JoinRoutedSnoc(read, line, Vertex);
    JoinRoutedSnoc(read, line, Fragment);
  }

  /** Moving the line just read from the lines still to come to the lines read. */
  lemma ConsumeLine(read: seq<string>, line: string, rest: seq<string>, all: seq<string>)
    requires read + ([line] + rest) == all
    ensures (read + [line]) + rest == all
  {
    assert read + ([line] + rest) == (read + [line]) + rest;
  }

  /** The splitter: reads `stream` with `std::getline` and appends every
      non-marker line, followed by '\n', to the section the selector names;
      while it names no section the line is discarded. */
  method ParseShader(stream: Stream) returns (source: ShaderSource)
    ensures stream.Failed? ==> source == ShaderSource("", "")
    ensures stream.Open? ==> source == Parse(Lines(stream.contents))
  {
    // a stream that failed to open yields no line to getline
    var contents := if stream.Open? then stream.contents else "";
    var t := None;
    var vertex, fragment := "", "";
    ghost var read: seq<string> := [];
    var pos := 0;
    while true
      invariant pos <= |contents|
      invariant read + Lines(contents[pos..]) == Lines(contents)
      invariant t == TypeAfter(None, read)
      invariant vertex == JoinLines(Routed(None, read, Vertex))
      invariant fragment == JoinLines(Routed(None, read, Fragment))
      decreases |contents| - pos
    {
      var ok, line, next := GetLine(contents, pos);
      if !ok {
        break;
      }
      ReadLine(read, line);
      if IsMarker(line) {
        if Contains(line, "vertex") {
          t := Vertex;
        } else if Contains(line, "fragment") {
          t := Fragment;
        }
      } else {
        match t
        case Vertex => vertex := vertex + (line + "\n");
        case Fragment => fragment := fragment + (line + "\n");
        case None => // discarded
      }
      ConsumeLine(read, line, Lines(contents[next..]), Lines(contents));
      read := read + [line];
      pos := next;
    }
    assert Lines(contents[pos..]) == [] by {
      assert contents[pos..] == [];
    }
    assert read == Lines(contents);
    source := ShaderSource(vertex, fragment);
  }

  /** Only non-marker lines are ever appended: no marker line reaches a section
      or the discard sink. */
  lemma {:induction false} RoutedExcludesMarkers(t: ShaderType, lines: seq<string>, target: ShaderType)
    ensures forall l :: l in Routed(t, lines, target) ==> !IsMarker(l)
    decreases |lines|
  {
    if lines != [] {
      RoutedExcludesMarkers(Next(t, lines[0]), lines[1..], target);
    }
  }

  /** The text `#shader` occurs in neither output. */
  lemma OutputsOmitMarkerText(lines: seq<string>)
    ensures !Contains(Parse(lines).vertexSource, "#shader")
    ensures !Contains(Parse(lines).fragmentSource, "#shader")
  {
    RoutedExcludesMarkers(None, lines, Vertex);
    RoutedExcludesMarkers(None, lines, Fragment);
    JoinLinesAvoids(Routed(None, lines, Vertex), "#shader");
    JoinLinesAvoids(Routed(None, lines, Fragment), "#shader");
  }

  /** Every non-marker line goes to exactly one place: the vertex section, the
      fragment section or the discard sink. */
  lemma {:induction false} RoutingPartitions(t: ShaderType, lines: seq<string>)
    ensures multiset(Routed(t, lines, Vertex)) + multiset(Routed(t, lines, Fragment))
          + multiset(Routed(t, lines, None)) == multiset(NonMarkers(lines))
    decreases |lines|
  {
    if lines != [] {
      RoutingPartitions(Next(t, lines[0]), lines[1..]);
    }
  }

  /** Lines none of which names a section leave the selector where it was and
      all go, markers excepted, to the section it names. */
  lemma {:induction false} UniformSection(t: ShaderType, lines: seq<string>, target: ShaderType)
    requires NoSelects(lines)
    ensures TypeAfter(t, lines) == t
    ensures Routed(t, lines, target) == if t == target then NonMarkers(lines) else []
    decreases |lines|
  {
    if lines != [] {
      assert !Selects(lines[0]);
      UniformSection(t, lines[1..], target);
    }
  }

  /** A marker naming a section followed by a block of lines that names none:
      the block goes to the section the marker names, whatever came before. */
  lemma SectionBlock(t: ShaderType, m: string, body: seq<string>, target: ShaderType)
    requires Selects(m) && NoSelects(body)
    ensures TypeAfter(t, [m] + body) == Next(None, m)
    ensures Routed(t, [m] + body, target) == if Next(None, m) == target then NonMarkers(body) else []
  {
    assert ([m] + body)[0] == m && ([m] + body)[1..] == body;
    UniformSection(Next(t, m), body, target);
  }

  /** Two blocks, each introduced by a marker that names a section: each block
      goes, in order, to the section its marker names. */
  lemma TwoBlocksAfter(t: ShaderType, m1: string, b1: seq<string>, m2: string, b2: seq<string>, target: ShaderType)
    requires NoSelects(b1) && NoSelects(b2) && Selects(m1) && Selects(m2)
    ensures Routed(t, ([m1] + b1) + ([m2] + b2), target)
         == (if Next(None, m1) == target then NonMarkers(b1) else [])
          + (if Next(None, m2) == target then NonMarkers(b2) else [])
  {
    RoutedAppend(t, [m1] + b1, [m2] + b2, target);
    SectionBlock(t, m1, b1, target);
    SectionBlock(Next(None, m1), m2, b2, target);
  }

  /** A file of a preamble and two sections, each introduced by a marker that
      names a section: the preamble is discarded and each block goes, in order,
      to the section its marker names. */
  lemma TwoBlocks(pre: seq<string>, m1: string, b1: seq<string>, m2: string, b2: seq<string>, target: ShaderType)
    requires NoSelects(pre) && NoSelects(b1) && NoSelects(b2) && Selects(m1) && Selects(m2)
    ensures Routed(None, pre + [m1] + b1 + [m2] + b2, target)
         == (if target == None then NonMarkers(pre) else [])
          + (if Next(None, m1) == target then NonMarkers(b1) else [])
          + (if Next(None, m2) == target then NonMarkers(b2) else [])
  {
    var b, c := [m1] + b1, [m2] + b2;
    assert pre + [m1] + b1 + [m2] + b2 == pre + (b + c);
    RoutedAppend(None, pre, b + c, target);
    UniformSection(None, pre, target);
    TwoBlocksAfter(None, m1, b1, m2, b2, target);
  }

  /** Sections are routed by keyword, not by position: a vertex block and a
      fragment block give the same outputs in either order, and each output is
      its block's lines with a '\n' after each. */
  lemma SwapSections(pre: seq<string>, vm: string, vs: seq<string>, fm: string, fs: seq<string>)
    requires NoSelects(pre) && NoSelects(vs) && NoSelects(fs)
    requires VertexMarker(vm) && FragmentMarker(fm)
    ensures Parse(pre + [vm] + vs + [fm] + fs) == ShaderSource(JoinLines(NonMarkers(vs)), JoinLines(NonMarkers(fs)))
    ensures Parse(pre + [fm] + fs + [vm] + vs) == ShaderSource(JoinLines(NonMarkers(vs)), JoinLines(NonMarkers(fs)))
  {
    TwoBlocks(pre, vm, vs, fm, fs, Vertex);
    TwoBlocks(pre, vm, vs, fm, fs, Fragment);
    TwoBlocks(pre, fm, fs, vm, vs, Vertex);
    TwoBlocks(pre, fm, fs, vm, vs, Fragment);
    assert [] + [] + NonMarkers(vs) == NonMarkers(vs) == [] + NonMarkers(vs) + [];
    assert [] + [] + NonMarkers(fs) == NonMarkers(fs) == [] + NonMarkers(fs) + [];
  }

  /** A marker line holding both `vertex` and `fragment` selects the vertex
      section, since `vertex` is tested first. */
  lemma VertexTestedFirst(pre: seq<string>, m: string, body: seq<string>)
    requires IsMarker(m) && Contains(m, "vertex") && Contains(m, "fragment") && NoSelects(body)
    ensures Parse(pre + [m] + body)
         == ShaderSource(JoinLines(Routed(None, pre, Vertex)) + JoinLines(NonMarkers(body)),
                         JoinLines(Routed(None, pre, Fragment)))
  {
    assert pre + [m] + body == pre + ([m] + body);
    RoutedAppend(None, pre, [m] + body, Vertex);
    RoutedAppend(None, pre, [m] + body, Fragment);
    SectionBlock(TypeAfter(None, pre), m, body, Vertex);
    SectionBlock(TypeAfter(None, pre), m, body, Fragment);
    JoinLinesAppend(Routed(None, pre, Vertex), NonMarkers(body));
    assert Routed(None, pre, Fragment) + [] == Routed(None, pre, Fragment);
  }

  /** A marker line naming no section is dropped and changes nothing: the
      lines after it go where the lines before it went. */
  lemma UnrecognisedMarkerIsNoOp(a: seq<string>, m: string, b: seq<string>)
    requires IsMarker(m) && !Contains(m, "vertex") && !Contains(m, "fragment")
    ensures Parse(a + [m] + b) == Parse(a + b)
  {
    forall target: ShaderType
      ensures Routed(None, a + [m] + b, target) == Routed(None, a + b, target)
    {
      var t := TypeAfter(None, a);
      assert a + [m] + b == a + ([m] + b);
      RoutedAppend(None, a, [m] + b, target);
      RoutedAppend(None, a, b, target);
      assert ([m] + b)[0] == m && ([m] + b)[1..] == b;
      assert Routed(t, [m] + b, target) == Routed(t, b, target);
    }
  }

  /** Lines before the first marker that names a section reach neither output:
      they all go to the discard sink, and the outputs are those of the file
      without them. */
  lemma PreambleDiscarded(pre: seq<string>, rest: seq<string>)
    requires NoSelects(pre)
    ensures Routed(None, pre, None) == NonMarkers(pre)
    ensures Parse(pre + rest) == Parse(rest)
  {
    UniformSection(None, pre, None);
    forall target: ShaderType | target != None
      ensures Routed(None, pre + rest, target) == Routed(None, rest, target)
    {
      RoutedAppend(None, pre, rest, target);
      UniformSection(None, pre, target);
    }
  }

  /** A file in which no marker names a section gives two empty outputs. */
  lemma NoMarkerNoOutput(lines: seq<string>)
    requires NoSelects(lines)
    ensures Parse(lines) == ShaderSource("", "")
  {
    UniformSection(None, lines, Vertex);
    UniformSection(None, lines, Fragment);
  }

  /** Four lines, each followed by '\n', split back into those four lines. */
  lemma ExampleLines(text: string, vm: string, body: string, fm: string)
    requires '\n' !in vm && '\n' !in body && '\n' !in fm
    requires text == vm + "\n" + body + "\n" + fm + "\n" + body + "\n"
    ensures Lines(text) == [vm, body, fm, body]
  {
    var ls := [vm, body, fm, body];
    assert JoinLines(ls[3..]) == body + "\n";
    assert JoinLines(ls[2..]) == fm + "\n" + JoinLines(ls[3..]);
    assert JoinLines(ls[1..]) == body + "\n" + JoinLines(ls[2..]);
    assert JoinLines(ls) == vm + "\n" + JoinLines(ls[1..]);
    assert JoinLines(ls) == text;
    LinesOfJoinLines(ls);
  }

  /** `#shader vertex` is a marker line. */
  lemma ExampleVertexIsMarker()
    ensures IsMarker("#shader vertex")
  {
    ContainsAt("#shader vertex", "#shader", 0);
  }

  /** `#shader vertex` names the vertex section. */
  lemma ExampleVertexNamesVertex()
    ensures Contains("#shader vertex", "vertex")
  {
    ContainsAt("#shader vertex", "vertex", 8);
  }

  /** `#shader fragment` is a marker line. */
  lemma ExampleFragmentIsMarker()
    ensures IsMarker("#shader fragment")
  {
    ContainsAt("#shader fragment", "#shader", 0);
  }

  /** `#shader fragment` names the fragment section and not the vertex one. */
  lemma ExampleFragmentNamesFragment()
    ensures Contains("#shader fragment", "fragment") && !Contains("#shader fragment", "vertex")
  {
    ContainsAt("#shader fragment", "fragment", 8);
    NotContainsFirst("#shader fragment", "vertex");
  }

  /** `void main() {}` is not a marker line. */
  lemma ExampleBodyLine()
    ensures !IsMarker("void main() {}")
  {
    NotContainsFirst("void main() {}", "#shader");
  }

  /** A vertex marker, one line, a fragment marker and the same line again:
      each output is that line followed by '\n'. */
  lemma ExampleParse(vm: string, body: string, fm: string)
    requires VertexMarker(vm) && !IsMarker(body) && FragmentMarker(fm)
    ensures Parse([vm, body, fm, body]) == ShaderSource(body + "\n", body + "\n")
  {
    assert NonMarkers([body]) == [body];
    assert JoinLines([body]) == body + "\n";
    assert [vm, body, fm, body] == [] + [vm] + [body] + [fm] + [body];
    SwapSections([], vm, [body], fm, [body]);
  }

  /** The two-section example file: both outputs are `void main() {}` and a '\n'. */
  lemma ExampleFile(text: string, vm: string, body: string, fm: string)
    requires vm == "#shader vertex" && body == "void main() {}" && fm == "#shader fragment"
    requires text == vm + "\n" + body + "\n" + fm + "\n" + body + "\n"
    ensures Parse(Lines(text)) == ShaderSource("void main() {}" + "\n", "void main() {}" + "\n")
  {
    ExampleLines(text, vm, body, fm);
    ExampleVertexIsMarker();
    ExampleVertexNamesVertex();
    ExampleFragmentIsMarker();
    ExampleFragmentNamesFragment();
    ExampleBodyLine();
    ExampleParse(vm, body, fm);
  }

  /** The index the source uses for the stream of section `t`: the enumerator's
      value, -1 for `None`. */
  function StreamIndex(t: ShaderType): (index: int)
  {
    match t
    case None => -1
    case Vertex => 0
    case Fragment => 1
  }

  /** As written, a non-marker line read before any marker names a section is
      written to stream index -1, outside the two-stream array: line `i` is
      the one the `None` selector receives. */
  lemma AsWrittenPreambleIndexOutOfRange(lines: seq<string>, i: nat)
    requires i < |lines| && !IsMarker(lines[i]) && NoSelects(lines[..i])
    ensures StreamIndex(TypeAfter(None, lines[..i])) == -1
    ensures Routed(None, lines[..i + 1], None) == Routed(None, lines[..i], None) + [lines[i]]
  {
    UniformSection(None, lines[..i], None);
    assert lines[..i + 1] == lines[..i] + [lines[i]];
    RoutedSnoc(None, lines[..i], lines[i], None);
  }
}
