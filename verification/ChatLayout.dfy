/** Breaking a chat line into lines of a console: fragments, hanging indentation and weblinks. */
module ChatLayout {

  datatype ChatLine = ChatLine(age: real, name: string, text: string)

  datatype Fragment = Fragment(text: string, column: nat, weblink: string)

  datatype FormattedLine = FormattedLine(fragments: seq<Fragment>, first: bool)

  /** The column of a fragment not yet laid out that ends its line. */
  const INT_MAX: nat := 0x7FFF_FFFF

  // ---------------------------------------------------------------------------
  // Indentation
  // ---------------------------------------------------------------------------

  /** The size of the name up to the first null character. */
  function SanitizedSize(name: string): (n: nat)
    ensures n <= |name| && forall i :: 0 <= i < n ==> name[i] != '\0'
    ensures n == |name| || name[n] == '\0'
  {
    if name == "" || name[0] == '\0' then 0 else 1 + SanitizedSize(name[1..])
  }

  function Indentation(name: string, cols: nat): nat {
    if name == "" then 0
    else if SanitizedSize(name) + 3 <= cols / 2 then |name| + 3
    else 2
  }

  /** Something of the line can be written: the indentation leaves a column. */
  predicate Visible(line: ChatLine, cols: nat) {
    Indentation(line.name, cols) < cols
  }

  /** Three columns are enough for every name without null characters, and are needed for any
      line that has a name. */
  lemma VisibleExactly(line: ChatLine, cols: nat)
    requires '\0' !in line.name
    ensures Visible(line, cols) <==> cols >= 3 || (line.name == "" && cols > 0)
  {
  }

  // ---------------------------------------------------------------------------
  // Laying out fragments
  // ---------------------------------------------------------------------------

  /** The finished lines, the current line, and the column where it goes on. */
  datatype Layout = Layout(lines: seq<FormattedLine>, current: FormattedLine, column: nat)
  {
    function Put(frag: Fragment): Layout {
      Layout(lines, FormattedLine(current.fragments + [frag.(column := column)], current.first), column + |frag.text|)
    }

    function EndLine(indent: nat): Layout {
      Layout(lines + [current], FormattedLine([], false), indent)
    }
  }

  /** A fragment goes onto the current line as far as there is room, and on to further lines. */
  function Place(l: Layout, frag: Fragment, cols: nat, indent: nat): (r: Layout)
    requires l.column < cols && indent < cols
    ensures r.column < cols
    decreases |frag.text|
  {
    var room := cols - l.column;
    if |frag.text| <= room then
      var l' := l.Put(frag);
      if l'.column == cols || frag.column == INT_MAX then l'.EndLine(indent) else l'
    else
      Place(l.Put(frag.(text := frag.text[..room])).EndLine(indent), frag.(text := frag.text[room..], column := 0),
            cols, indent)
  }

  function LayOut(l: Layout, frags: seq<Fragment>, cols: nat, indent: nat): (r: Layout)
    requires l.column < cols && indent < cols
    ensures r.column < cols
    decreases |frags|
  {
    if frags == [] then l else LayOut(Place(l, frags[0], cols, indent), frags[1..], cols, indent)
  }

  // ---------------------------------------------------------------------------
  // Producing fragments
  // ---------------------------------------------------------------------------

  datatype Offset = Nowhere | At(n: nat)

  function Min(a: nat, b: nat): nat {
    if a < b then a else b
  }

  predicate IsSpace(c: char) {
    c == ' ' || '\t' <= c <= '\r'
  }

  /** Characters that end a weblink. */
  predicate IsDelimiter(c: char) {
    c == '\'' || c == '\"' || c == ';'
  }

  predicate StartsAt(text: string, pattern: string, i: nat) {
    i + |pattern| <= |text| && text[i..i + |pattern|] == pattern
  }

  /** The first occurrence from a position on. */
  function Find(text: string, pattern: string, from: nat): (r: Offset)
    requires from <= |text|
    ensures r.At? ==> from <= r.n && StartsAt(text, pattern, r.n)
    ensures forall i: nat :: from <= i < (if r.At? then r.n else |text|) ==>
      !StartsAt(text, pattern, i) || |pattern| == 0
    decreases |text| - from
  {
    if StartsAt(text, pattern, from) then At(from)
    else if from == |text| then Nowhere
    else Find(text, pattern, from + 1)
  }

  const HTTPS := "https://"
  const HTTP := "http://"

  /** How far ahead the next weblink is; secure links are looked for first. */
  function HttpOffset(text: string, pos: nat): (r: Offset)
    requires pos <= |text|
    ensures r.At? ==> pos + r.n + 6 < |text|
  {
    var https := Find(text, HTTPS, pos);
    if https.At? then At(https.n - pos)
    else
      var http := Find(text, HTTP, pos);
      if http.At? then At(http.n - pos) else Nowhere
  }

  /** The last space among the next n characters, as an offset; zero if there is none. */
  function LastSpace(text: string, pos: nat, n: nat): (r: nat)
    requires pos + n <= |text|
    ensures r == 0 || (r < n && IsSpace(text[pos + r]))
    ensures forall i :: pos + r < i < pos + n ==> !IsSpace(text[i])
  {
    if n == 0 then 0 else if IsSpace(text[pos + n - 1]) then n - 1 else LastSpace(text, pos, n - 1)
  }

  /** Where a weblink ends: at the first space or delimiter from an offset on. */
  function LinkEnd(text: string, pos: nat, n: nat): (r: nat)
    requires pos + n <= |text|
    ensures n <= r && pos + r <= |text|
    decreases |text| - pos - n
  {
    if pos + n < |text| && !IsSpace(text[pos + n]) && !IsDelimiter(text[pos + n]) then LinkEnd(text, pos, n + 1) else n
  }

  /** A weblink does not include one trailing punctuation character. */
  function LinkLength(text: string, pos: nat): (r: nat)
    requires pos + 6 <= |text|
    ensures 5 <= r && pos + r <= |text|
  {
    var n := LinkEnd(text, pos, 6);
    if text[pos + n - 1] == ',' || text[pos + n - 1] == '.' then n - 1 else n
  }

  /** The next stretch of text that becomes a fragment, and whether it ends its line. */
  datatype Piece = Piece(length: nat, last: bool, link: bool)

  function NextPiece(text: string, pos: nat, room: nat, weblinks: bool): (r: Piece)
    requires pos <= |text| && room > 0
    ensures pos + r.length <= |text|
    ensures r.length == 0 ==> pos == |text|
    ensures !r.last ==> 0 < r.length < room
  {
    var left := |text| - pos;
    var http := if weblinks then HttpOffset(text, pos) else Nowhere;
    if http == Nowhere || http.n >= room then
      var window := Min(left, room);
      var space := LastSpace(text, pos, window);
      Piece(if space != 0 && window < left then space + 1 else window, true, false)
    else if http.n == 0 then
      var n := LinkLength(text, pos);
      Piece(n, n >= room, true)
    else
      Piece(http.n, false, false)
  }

  /** Text outside of weblinks is broken after a space, unless the stretch that fits has none,
      in which case it is filled up. */
  lemma BreaksAtSpaces(text: string, pos: nat, room: nat, weblinks: bool)
    requires pos <= |text| && room > 0
    ensures var p := NextPiece(text, pos, room, weblinks);
      p.last && !p.link && pos + p.length < |text| ==>
        && p.length <= room
        && (IsSpace(text[pos + p.length - 1]) || p.length == room)
        && forall i :: pos + p.length <= i < pos + room && i < |text| ==> !IsSpace(text[i])
  {
  }

  function PieceFragment(text: string, pos: nat, piece: Piece): Fragment
    requires pos + piece.length <= |text|
  {
    var s := text[pos..pos + piece.length];
    Fragment(s, if piece.last then INT_MAX else 0, if piece.link then s else "")
  }

  /** The fragments for the next line, and where in the text they end. */
  function Produce(text: string, pos: nat, room: nat, weblinks: bool): (r: (seq<Fragment>, nat))
    requires pos <= |text| && room > 0
    ensures pos <= r.1 <= |text|
    ensures pos < |text| ==> pos < r.1
    decreases |text| - pos
  {
    var p := NextPiece(text, pos, room, weblinks);
    var frag := PieceFragment(text, pos, p);
    if p.last then ([frag], pos + p.length)
    else
      var (frags, end) := Produce(text, pos + p.length, room - p.length, weblinks);
      ([frag] + frags, end)
  }

  // ---------------------------------------------------------------------------
  // The whole line
  // ---------------------------------------------------------------------------

  /** Lays out what is waiting, produces more, and so on to the end of the text. */
  function Run(l: Layout, frags: seq<Fragment>, text: string, pos: nat, cols: nat, indent: nat, weblinks: bool): Layout
    requires pos <= |text| && l.column < cols && indent < cols
    decreases |text| - pos
  {
    var l' := LayOut(l, frags, cols, indent);
    if pos == |text| then l'
    else
      var (more, end) := Produce(text, pos, cols - l'.column, weblinks);
      Run(l', more, text, end, cols, indent, weblinks)
  }

  function NameFragments(name: string): seq<Fragment> {
    if name == "" then [] else [Fragment("<", 0, ""), Fragment(name, 0, ""), Fragment("> ", 0, "")]
  }

  const START := Layout([], FormattedLine([], true), 0)

  function Finish(l: Layout): seq<FormattedLine> {
    if l.lines == [] || l.current.fragments != [] then l.lines + [l.current] else l.lines
  }

  /** The lines a chat line is shown as. */
  function Format(line: ChatLine, cols: nat, weblinks: bool): seq<FormattedLine> {
    var indent := Indentation(line.name, cols);
    if indent >= cols then []
    else Finish(Run(START, NameFragments(line.name), line.text, 0, cols, indent, weblinks))
  }

  // ---------------------------------------------------------------------------
  // Nothing is lost
  // ---------------------------------------------------------------------------

  ghost function FragmentsText(frags: seq<Fragment>): string {
    if frags == [] then "" else FragmentsText(frags[..|frags| - 1]) + frags[|frags| - 1].text
  }

  ghost function LinesText(lines: seq<FormattedLine>): string {
    if lines == [] then "" else LinesText(lines[..|lines| - 1]) + FragmentsText(lines[|lines| - 1].fragments)
  }

  ghost function LayoutText(l: Layout): string {
    LinesText(l.lines) + FragmentsText(l.current.fragments)
  }

  lemma PutText(l: Layout, frag: Fragment)
    ensures LayoutText(l.Put(frag)) == LayoutText(l) + frag.text
  {
    var frags := l.current.fragments + [frag.(column := l.column)];
    assert frags[..|frags| - 1] == l.current.fragments;
  }

  lemma EndLineText(l: Layout, indent: nat)
    ensures LayoutText(l.EndLine(indent)) == LayoutText(l)
  {
    var lines := l.lines + [l.current];
    assert lines[..|lines| - 1] == l.lines;
  }

  lemma Rejoin(before: string, s: string, n: nat)
    requires n <= |s|
    ensures before + s[..n] + s[n..] == before + s
  {
  }

  lemma {:induction false} PlaceText(l: Layout, frag: Fragment, cols: nat, indent: nat)
    requires l.column < cols && indent < cols
    ensures LayoutText(Place(l, frag, cols, indent)) == LayoutText(l) + frag.text
    decreases |frag.text|
  {
    hide LayoutText;
    var room := cols - l.column;
    if |frag.text| <= room {
      PutText(l, frag);
      EndLineText(l.Put(frag), indent);
    } else {
      var head := frag.(text := frag.text[..room]);
      PutText(l, head);
      EndLineText(l.Put(head), indent);
      PlaceText(l.Put(head).EndLine(indent), frag.(text := frag.text[room..], column := 0), cols, indent);
      Rejoin(LayoutText(l), frag.text, room);
    }
  }

  lemma Associative(a: string, b: string, c: string)
    ensures (a + b) + c == a + (b + c)
  {
  }

  /** The text of fragments from the front. */
  lemma {:induction false} TextFromFront(frags: seq<Fragment>)
    requires frags != []
    ensures FragmentsText(frags) == frags[0].text + FragmentsText(frags[1..])
  {
    var init, last := frags[..|frags| - 1], frags[|frags| - 1].text;
    if init != [] {
      TextFromFront(init);
      var tail := frags[1..];
      assert tail[..|tail| - 1] == init[1..];
      Associative(frags[0].text, FragmentsText(init[1..]), last);
    } else {
      assert frags[1..] == [];
    }
  }

  lemma {:induction false} LayOutText(l: Layout, frags: seq<Fragment>, cols: nat, indent: nat)
    requires l.column < cols && indent < cols
    ensures LayoutText(LayOut(l, frags, cols, indent)) == LayoutText(l) + FragmentsText(frags)
    decreases |frags|
  {
    hide LayoutText;
    hide Place;
    if frags != [] {
      PlaceText(l, frags[0], cols, indent);
      LayOutText(Place(l, frags[0], cols, indent), frags[1..], cols, indent);
      TextFromFront(frags);
      assert LayoutText(l) + frags[0].text + FragmentsText(frags[1..]) == LayoutText(l) + FragmentsText(frags);
    }
  }

  lemma {:induction false} ProduceText(text: string, pos: nat, room: nat, weblinks: bool)
    requires pos <= |text| && room > 0
    ensures var (frags, end) := Produce(text, pos, room, weblinks); FragmentsText(frags) == text[pos..end]
    decreases |text| - pos
  {
    hide NextPiece;
    hide FragmentsText;
    hide Produce;
    ProduceUnfold(text, pos, room, weblinks);
    var p := NextPiece(text, pos, room, weblinks);
    var frag := PieceFragment(text, pos, p);
    if p.last {
      OneText(frag);
    } else {
      var (frags, end) := Produce(text, pos + p.length, room - p.length, weblinks);
      ProduceText(text, pos + p.length, room - p.length, weblinks);
      ConsText(frag, frags);
      SliceSplit(text, pos, pos + p.length, end);
    }
  }

  lemma ProduceUnfold(text: string, pos: nat, room: nat, weblinks: bool)
    requires pos <= |text| && room > 0
    ensures var p := NextPiece(text, pos, room, weblinks);
      var frag := PieceFragment(text, pos, p);
      Produce(text, pos, room, weblinks)
      == if p.last then ([frag], pos + p.length)
         else
           var more := Produce(text, pos + p.length, room - p.length, weblinks);
           ([frag] + more.0, more.1)
  {
    hide NextPiece;
  }

  lemma ConsText(frag: Fragment, frags: seq<Fragment>)
    ensures FragmentsText([frag] + frags) == frag.text + FragmentsText(frags)
  {
    TextFromFront([frag] + frags);
    assert ([frag] + frags)[1..] == frags;
  }

  lemma SliceSplit(text: string, a: nat, b: nat, c: nat)
    requires a <= b <= c <= |text|
    ensures text[a..b] + text[b..c] == text[a..c]
  {
  }

  lemma OneText(frag: Fragment)
    ensures FragmentsText([frag]) == frag.text
  {
    assert [frag][..0] == [];
  }

  lemma {:induction false} RunText(l: Layout, frags: seq<Fragment>, text: string, pos: nat, cols: nat, indent: nat,
                                   weblinks: bool)
    requires pos <= |text| && l.column < cols && indent < cols
    ensures LayoutText(Run(l, frags, text, pos, cols, indent, weblinks))
         == LayoutText(l) + FragmentsText(frags) + text[pos..]
    decreases |text| - pos
  {
    hide FragmentsText;
    hide LayoutText;
    hide LayOut;
    hide Produce;
    var l' := LayOut(l, frags, cols, indent);
    LayOutText(l, frags, cols, indent);
    if pos < |text| {
      var (more, end) := Produce(text, pos, cols - l'.column, weblinks);
      ProduceText(text, pos, cols - l'.column, weblinks);
      RunText(l', more, text, end, cols, indent, weblinks);
      assert text[pos..end] == text[pos..][..end - pos] && text[end..] == text[pos..][end - pos..];
      Rejoin(LayoutText(l) + FragmentsText(frags), text[pos..], end - pos);
    }
  }

  lemma FinishText(l: Layout)
    ensures LinesText(Finish(l)) == LayoutText(l)
  {
    EndLineText(l, 0);
  }

  /** What is shown of a line with its sender's name. */
  function Shown(line: ChatLine): string {
    (if line.name == "" then "" else "<" + line.name + "> ") + line.text
  }

  lemma NameText(name: string)
    ensures FragmentsText(NameFragments(name)) == if name == "" then "" else "<" + name + "> "
  {
    if name != "" {
      var a, b, c := Fragment("<", 0, ""), Fragment(name, 0, ""), Fragment("> ", 0, "");
      assert [a, b, c][..2] == [a, b] && [a, b][..1] == [a];
      assert FragmentsText([a]) == "<";
      assert FragmentsText([a, b]) == "<" + name;
    }
  }

  /** No character is dropped or duplicated, with or without weblinks. */
  lemma FormatKeepsText(line: ChatLine, cols: nat, weblinks: bool)
    requires Visible(line, cols)
    ensures LinesText(Format(line, cols, weblinks)) == Shown(line)
  {
    hide Run;
    hide NameFragments;
    hide FragmentsText;
    hide LinesText;
    hide LayoutText;
    hide Finish;
    hide Indentation;
    var indent := Indentation(line.name, cols);
    var frags := NameFragments(line.name);
    var l := Run(START, frags, line.text, 0, cols, indent, weblinks);
    RunText(START, frags, line.text, 0, cols, indent, weblinks);
    FinishText(l);
    NameText(line.name);
    StartText();
    assert line.text[0..] == line.text;
    assert "" + FragmentsText(frags) == FragmentsText(frags);
  }

  lemma StartText()
    ensures LayoutText(START) == ""
  {
  }

  // ---------------------------------------------------------------------------
  // Lines fit, and fragments stand where they should
  // ---------------------------------------------------------------------------

  /** Where fragments end that begin at the start column. */
  ghost function EndOf(frags: seq<Fragment>, start: nat): nat {
    if frags == [] then start else frags[|frags| - 1].column + |frags[|frags| - 1].text|
  }

  /** The fragments follow one another from the start column. */
  ghost predicate Contiguous(frags: seq<Fragment>, start: nat) {
    forall i :: 0 <= i < |frags| ==> frags[i].column == EndOf(frags[..i], start)
  }

  /** The i-th line starts at the left or, unless it is the first, at the indentation, fits in
      the columns, and is marked as the first only if it is. */
  ghost predicate LineStands(line: FormattedLine, i: nat, cols: nat, indent: nat) {
    var start := if i == 0 then 0 else indent;
    && line.first == (i == 0)
    && Contiguous(line.fragments, start) && EndOf(line.fragments, start) <= cols
  }

  ghost predicate AllStand(lines: seq<FormattedLine>, cols: nat, indent: nat) {
    forall i :: 0 <= i < |lines| ==> LineStands(lines[i], i, cols, indent)
  }

  ghost predicate LayoutStands(l: Layout, cols: nat, indent: nat) {
    && AllStand(l.lines, cols, indent) && LineStands(l.current, |l.lines|, cols, indent)
    && EndOf(l.current.fragments, if l.lines == [] then 0 else indent) == l.column
  }

  lemma PutStands(l: Layout, frag: Fragment, cols: nat, indent: nat)
    requires LayoutStands(l, cols, indent) && l.column + |frag.text| <= cols
    ensures LayoutStands(l.Put(frag), cols, indent)
  {
    var start := if l.lines == [] then 0 else indent;
    var placed := frag.(column := l.column);
    assert l.Put(frag)
        == Layout(l.lines, FormattedLine(l.current.fragments + [placed], l.current.first), l.column + |frag.text|);
    OneMoreStands(l.current.fragments, placed, start);
  }

  lemma OneMoreStands(frags: seq<Fragment>, frag: Fragment, start: nat)
    requires Contiguous(frags, start) && frag.column == EndOf(frags, start)
    ensures Contiguous(frags + [frag], start) && EndOf(frags + [frag], start) == frag.column + |frag.text|
  {
  }

  lemma EndLineStands(l: Layout, cols: nat, indent: nat)
    requires LayoutStands(l, cols, indent) && indent < cols
    ensures LayoutStands(l.EndLine(indent), cols, indent)
  {
  }

  lemma {:induction false} PlaceStands(l: Layout, frag: Fragment, cols: nat, indent: nat)
    requires LayoutStands(l, cols, indent) && l.column < cols && indent < cols
    ensures LayoutStands(Place(l, frag, cols, indent), cols, indent)
    decreases |frag.text|
  {
    hide LayoutStands;
    var room := cols - l.column;
    if |frag.text| <= room {
      PutStands(l, frag, cols, indent);
      EndLineStands(l.Put(frag), cols, indent);
    } else {
      var head := frag.(text := frag.text[..room]);
      PutStands(l, head, cols, indent);
      EndLineStands(l.Put(head), cols, indent);
      PlaceStands(l.Put(head).EndLine(indent), frag.(text := frag.text[room..], column := 0), cols, indent);
    }
  }

  lemma {:induction false} LayOutStands(l: Layout, frags: seq<Fragment>, cols: nat, indent: nat)
    requires LayoutStands(l, cols, indent) && l.column < cols && indent < cols
    ensures LayoutStands(LayOut(l, frags, cols, indent), cols, indent)
    decreases |frags|
  {
    hide LayoutStands;
    hide Place;
    if frags != [] {
      PlaceStands(l, frags[0], cols, indent);
      LayOutStands(Place(l, frags[0], cols, indent), frags[1..], cols, indent);
    }
  }

  lemma {:induction false} RunStands(l: Layout, frags: seq<Fragment>, text: string, pos: nat, cols: nat, indent: nat,
                                     weblinks: bool)
    requires pos <= |text| && LayoutStands(l, cols, indent) && l.column < cols && indent < cols
    ensures LayoutStands(Run(l, frags, text, pos, cols, indent, weblinks), cols, indent)
    decreases |text| - pos
  {
    hide LayoutStands;
    hide LayOut;
    hide Produce;
    LayOutStands(l, frags, cols, indent);
    if pos < |text| {
      var l' := LayOut(l, frags, cols, indent);
      var (more, end) := Produce(text, pos, cols - l'.column, weblinks);
      RunStands(l', more, text, end, cols, indent, weblinks);
    }
  }

  /** At least one line is appended, exactly the first of them is marked so, none is longer than
      the columns, and fragments stand at the running offsets.  The other lines begin below the
      message if the name takes up to half of the columns, else two columns in. */
  lemma FormatStands(line: ChatLine, cols: nat, weblinks: bool)
    requires Visible(line, cols)
    ensures Format(line, cols, weblinks) != []
    ensures AllStand(Format(line, cols, weblinks), cols, Indentation(line.name, cols))
    ensures line.name == "" ==> AllStand(Format(line, cols, weblinks), cols, 0)
    ensures line.name != "" && '\0' !in line.name ==>
      AllStand(Format(line, cols, weblinks), cols, if 2 * |"<" + line.name + "> "| <= cols then |line.name| + 3 else 2)
  {
    hide Run;
    var indent := Indentation(line.name, cols);
    assert LayoutStands(START, cols, indent);
    RunStands(START, NameFragments(line.name), line.text, 0, cols, indent, weblinks);
    var l := Run(START, NameFragments(line.name), line.text, 0, cols, indent, weblinks);
    EndLineStands(l, cols, indent);
  }

  lemma ContiguousLast(frags: seq<Fragment>, last: Fragment, start: nat)
    requires Contiguous(frags + [last], start)
    ensures Contiguous(frags, start) && last.column == EndOf(frags, start)
  {
    var all := frags + [last];
    assert all[..|frags|] == frags && all[|frags|] == last;
    forall i | 0 <= i < |frags| ensures frags[i].column == EndOf(frags[..i], start) {
      assert all[i] == frags[i] && all[..i] == frags[..i];
    }
  }

  lemma {:induction false} FragmentsFit(frags: seq<Fragment>, start: nat)
    requires Contiguous(frags, start)
    ensures start + |FragmentsText(frags)| == EndOf(frags, start)
  {
    hide Contiguous;
    if frags != [] {
      var init, last := frags[..|frags| - 1], frags[|frags| - 1];
      assert frags == init + [last];
      ContiguousLast(init, last, start);
      FragmentsFit(init, start);
    }
  }

  lemma LineFits(line: FormattedLine, i: nat, cols: nat, indent: nat)
    requires LineStands(line, i, cols, indent)
    ensures |FragmentsText(line.fragments)| <= cols
  {
    FragmentsFit(line.fragments, if i == 0 then 0 else indent);
  }

  lemma {:induction false} LinesFit(lines: seq<FormattedLine>, cols: nat, indent: nat)
    requires AllStand(lines, cols, indent)
    ensures |LinesText(lines)| <= |lines| * cols
  {
    hide LineStands;
    hide FragmentsText;
    if lines != [] {
      var n := |lines| - 1;
      assert LineStands(lines[n], n, cols, indent);
      LineFits(lines[n], n, cols, indent);
      LinesFit(lines[..n], cols, indent);
      assert |lines| * cols == n * cols + cols;
    }
  }

  /** What is shown needs as many lines as its columns take. */
  lemma FormatNeedsLines(line: ChatLine, cols: nat, weblinks: bool)
    requires Visible(line, cols)
    ensures |Shown(line)| <= |Format(line, cols, weblinks)| * cols
  {
    FormatStands(line, cols, weblinks);
    FormatKeepsText(line, cols, weblinks);
    LinesFit(Format(line, cols, weblinks), cols, Indentation(line.name, cols));
  }

  // ---------------------------------------------------------------------------
  // Where lines are broken
  // ---------------------------------------------------------------------------

  /** A line ends after a space or at the last column. */
  ghost predicate EndsWell(line: FormattedLine, cols: nat) {
    && line.fragments != []
    && var last := line.fragments[|line.fragments| - 1];
       last.column + |last.text| == cols || (last.text != "" && IsSpace(last.text[|last.text| - 1]))
  }

  /** All of the first n lines end well. */
  ghost predicate WellBroken(lines: seq<FormattedLine>, n: nat, cols: nat) {
    n <= |lines| && forall i :: 0 <= i < n ==> EndsWell(lines[i], cols)
  }

  /** All finished lines end well, except that the text may end with the last of them. */
  ghost predicate LayoutWell(l: Layout, atEnd: bool, cols: nat) {
    || WellBroken(l.lines, |l.lines|, cols)
    || (atEnd && l.lines != [] && l.current.fragments == [] && WellBroken(l.lines, |l.lines| - 1, cols))
  }

  lemma EndWell(l: Layout, frag: Fragment, cols: nat, indent: nat)
    requires LayoutWell(l, false, cols)
    requires l.column + |frag.text| == cols || (frag.text != "" && IsSpace(frag.text[|frag.text| - 1]))
    ensures LayoutWell(l.Put(frag).EndLine(indent), false, cols)
  {
    assert EndsWell(l.Put(frag).current, cols);
  }

  /** A fragment without a mark only breaks lines at the last column. */
  lemma {:induction false} PlaceUnmarked(l: Layout, frag: Fragment, cols: nat, indent: nat)
    requires l.column < cols && indent < cols && frag.column != INT_MAX && LayoutWell(l, false, cols)
    ensures LayoutWell(Place(l, frag, cols, indent), false, cols)
    decreases |frag.text|
  {
    var room := cols - l.column;
    if |frag.text| < room {
    } else if |frag.text| == room {
      EndWell(l, frag, cols, indent);
    } else {
      var head := frag.(text := frag.text[..room]);
      EndWell(l, head, cols, indent);
      hide LayoutWell;
      PlaceUnmarked(l.Put(head).EndLine(indent), frag.(text := frag.text[room..], column := 0), cols, indent);
    }
  }

  lemma {:induction false} LayOutUnmarked(l: Layout, frags: seq<Fragment>, cols: nat, indent: nat)
    requires l.column < cols && indent < cols && LayoutWell(l, false, cols)
    requires forall i :: 0 <= i < |frags| ==> frags[i].column != INT_MAX
    ensures LayoutWell(LayOut(l, frags, cols, indent), false, cols)
    decreases |frags|
  {
    hide LayoutWell;
    hide Place;
    if frags != [] {
      PlaceUnmarked(l, frags[0], cols, indent);
      LayOutUnmarked(Place(l, frags[0], cols, indent), frags[1..], cols, indent);
    }
  }

  /** The last fragment of a line: it ends with a space, fills the line, or ends the text. */
  lemma PlaceLast(l: Layout, text: string, pos: nat, cols: nat, indent: nat, weblinks: bool)
    requires l.column < cols && indent < cols && pos <= |text| && LayoutWell(l, false, cols)
    requires NextPiece(text, pos, cols - l.column, weblinks).last
    ensures var p := NextPiece(text, pos, cols - l.column, weblinks);
      LayoutWell(Place(l, PieceFragment(text, pos, p), cols, indent), pos + p.length == |text|, cols)
  {
    hide NextPiece;
    hide LayoutWell;
    hide Place;
    var room := cols - l.column;
    BreaksAtSpaces(text, pos, room, weblinks);
    LastPiece(text, pos, room, weblinks);
    var p := NextPiece(text, pos, room, weblinks);
    var frag := PieceFragment(text, pos, p);
    PlaceUnfold(l, frag, cols, indent);
    if p.length > room {
      var head, rest := frag.(text := frag.text[..room]), frag.(text := frag.text[room..], column := 0);
      EndWell(l, head, cols, indent);
      PlaceUnmarked(l.Put(head).EndLine(indent), rest, cols, indent);
      WellAnyway(Place(l, frag, cols, indent), cols);
    } else if p.length == room || (p.length > 0 && IsSpace(text[pos + p.length - 1])) {
      EndWell(l, frag, cols, indent);
      WellAnyway(Place(l, frag, cols, indent), cols);
    } else {
      PlaceEnd(l, frag, cols, indent);
    }
  }

  lemma PlaceUnfold(l: Layout, frag: Fragment, cols: nat, indent: nat)
    requires l.column < cols && indent < cols
    ensures var room := cols - l.column;
      Place(l, frag, cols, indent)
      == if |frag.text| > room then
           Place(l.Put(frag.(text := frag.text[..room])).EndLine(indent),
                 frag.(text := frag.text[room..], column := 0), cols, indent)
         else if |frag.text| == room || frag.column == INT_MAX then l.Put(frag).EndLine(indent)
         else l.Put(frag)
  {
  }

  lemma WellAnyway(l: Layout, cols: nat)
    requires LayoutWell(l, false, cols)
    ensures LayoutWell(l, true, cols)
  {
  }

  lemma PlaceEnd(l: Layout, frag: Fragment, cols: nat, indent: nat)
    requires l.column + |frag.text| <= cols && l.column < cols && indent < cols && frag.column == INT_MAX
    requires LayoutWell(l, false, cols)
    ensures LayoutWell(Place(l, frag, cols, indent), true, cols)
  {
    assert Place(l, frag, cols, indent) == l.Put(frag).EndLine(indent);
  }

  lemma LastPiece(text: string, pos: nat, room: nat, weblinks: bool)
    requires pos <= |text| && room > 0
    ensures var p := NextPiece(text, pos, room, weblinks); p.last && p.link ==> p.length >= room
  {
  }

  lemma {:induction false} ProduceWell(l: Layout, text: string, pos: nat, cols: nat, indent: nat, weblinks: bool)
    requires l.column < cols && indent < cols && pos <= |text| && LayoutWell(l, false, cols)
    ensures var (frags, end) := Produce(text, pos, cols - l.column, weblinks);
      LayoutWell(LayOut(l, frags, cols, indent), end == |text|, cols)
    decreases |text| - pos
  {
    hide NextPiece;
    hide LayoutWell;
    hide Produce;
    hide Place;
    hide LayOut;
    var room := cols - l.column;
    ProduceUnfold(text, pos, room, weblinks);
    var p := NextPiece(text, pos, room, weblinks);
    var frag := PieceFragment(text, pos, p);
    if p.last {
      PlaceLast(l, text, pos, cols, indent, weblinks);
      LayOutCons(l, frag, [], cols, indent);
      RunEnds(Place(l, frag, cols, indent), text, cols, indent, weblinks);
      assert [frag] + [] == [frag];
    } else {
      PlaceUnmarked(l, frag, cols, indent);
      PlaceUnfold(l, frag, cols, indent);
      ProduceWell(l.Put(frag), text, pos + p.length, cols, indent, weblinks);
      var (frags, end) := Produce(text, pos + p.length, room - p.length, weblinks);
      LayOutCons(l, frag, frags, cols, indent);
    }
  }

  lemma LayOutCons(l: Layout, frag: Fragment, frags: seq<Fragment>, cols: nat, indent: nat)
    requires l.column < cols && indent < cols
    ensures LayOut(l, [frag] + frags, cols, indent) == LayOut(Place(l, frag, cols, indent), frags, cols, indent)
  {
    hide Place;
    assert ([frag] + frags)[1..] == frags;
  }

  lemma {:induction false} RunWell(l: Layout, frags: seq<Fragment>, text: string, pos: nat, cols: nat, indent: nat,
                                   weblinks: bool)
    requires pos <= |text| && l.column < cols && indent < cols
    requires LayoutWell(LayOut(l, frags, cols, indent), pos == |text|, cols)
    ensures LayoutWell(Run(l, frags, text, pos, cols, indent, weblinks), true, cols)
    decreases |text| - pos
  {
    hide LayOut;
    hide Produce;
    var l' := LayOut(l, frags, cols, indent);
    if pos < |text| {
      var (more, end) := Produce(text, pos, cols - l'.column, weblinks);
      ProduceWell(l', text, pos, cols, indent, weblinks);
      hide LayoutWell;
      RunWell(l', more, text, end, cols, indent, weblinks);
    }
  }

  /** Every line but the last ends after a space or at the last column. */
  lemma FormatBreaksWell(line: ChatLine, cols: nat, weblinks: bool)
    requires Visible(line, cols)
    ensures var lines := Format(line, cols, weblinks); lines != [] && WellBroken(lines, |lines| - 1, cols)
  {
    hide Run;
    hide LayOut;
    var indent := Indentation(line.name, cols);
    var frags := NameFragments(line.name);
    LayOutUnmarked(START, frags, cols, indent);
    RunWell(START, frags, line.text, 0, cols, indent, weblinks);
    var l := Run(START, frags, line.text, 0, cols, indent, weblinks);
    if l.current.fragments != [] {
      assert forall i :: 0 <= i < |l.lines| ==> (l.lines + [l.current])[i] == l.lines[i];
    }
  }

  // ---------------------------------------------------------------------------
  // Weblinks
  // ---------------------------------------------------------------------------

  predicate IsUrl(s: string) {
    HTTPS <= s || HTTP <= s
  }

  ghost predicate PartOf(part: string, whole: string) {
    exists i, j :: 0 <= i <= j <= |whole| && part == whole[i..j]
  }

  /** A fragment that carries a weblink shows a part of it, and the weblink is one. */
  ghost predicate LinkHolds(frag: Fragment, weblinks: bool) {
    frag.weblink == "" || (weblinks && IsUrl(frag.weblink) && PartOf(frag.text, frag.weblink))
  }

  ghost predicate LinksHold(frags: seq<Fragment>, weblinks: bool) {
    forall i :: 0 <= i < |frags| ==> LinkHolds(frags[i], weblinks)
  }

  ghost predicate LineLinksHold(lines: seq<FormattedLine>, weblinks: bool) {
    forall i :: 0 <= i < |lines| ==> LinksHold(lines[i].fragments, weblinks)
  }

  ghost predicate LayoutLinksHold(l: Layout, weblinks: bool) {
    LineLinksHold(l.lines, weblinks) && LinksHold(l.current.fragments, weblinks)
  }

  lemma PutLinks(l: Layout, frag: Fragment, indent: nat, weblinks: bool)
    requires LayoutLinksHold(l, weblinks) && LinkHolds(frag, weblinks)
    ensures LayoutLinksHold(l.Put(frag), weblinks) && LayoutLinksHold(l.Put(frag).EndLine(indent), weblinks)
  {
    assert LinkHolds(frag.(column := l.column), weblinks);
    hide LinkHolds;
  }

  lemma SplitLink(frag: Fragment, n: nat, weblinks: bool)
    requires LinkHolds(frag, weblinks) && n <= |frag.text|
    ensures LinkHolds(frag.(text := frag.text[..n]), weblinks)
    ensures LinkHolds(frag.(text := frag.text[n..], column := 0), weblinks)
  {
    if frag.weblink != "" {
      var i, j :| 0 <= i <= j <= |frag.weblink| && frag.text == frag.weblink[i..j];
      assert frag.text[..n] == frag.weblink[i..i + n];
      assert frag.text[n..] == frag.weblink[i + n..j];
    }
  }

  lemma {:induction false} PlaceLinks(l: Layout, frag: Fragment, cols: nat, indent: nat, weblinks: bool)
    requires l.column < cols && indent < cols && LayoutLinksHold(l, weblinks) && LinkHolds(frag, weblinks)
    ensures LayoutLinksHold(Place(l, frag, cols, indent), weblinks)
    decreases |frag.text|
  {
    hide LayoutLinksHold;
    hide LinkHolds;
    var room := cols - l.column;
    if |frag.text| <= room {
      PutLinks(l, frag, indent, weblinks);
    } else {
      SplitLink(frag, room, weblinks);
      var head := frag.(text := frag.text[..room]);
      PutLinks(l, head, indent, weblinks);
      PlaceLinks(l.Put(head).EndLine(indent), frag.(text := frag.text[room..], column := 0), cols, indent, weblinks);
    }
  }

  lemma {:induction false} LayOutLinks(l: Layout, frags: seq<Fragment>, cols: nat, indent: nat, weblinks: bool)
    requires l.column < cols && indent < cols && LayoutLinksHold(l, weblinks) && LinksHold(frags, weblinks)
    ensures LayoutLinksHold(LayOut(l, frags, cols, indent), weblinks)
    decreases |frags|
  {
    hide LayoutLinksHold;
    hide LinkHolds;
    hide Place;
    if frags != [] {
      PlaceLinks(l, frags[0], cols, indent, weblinks);
      LayOutLinks(Place(l, frags[0], cols, indent), frags[1..], cols, indent, weblinks);
    }
  }

  /** What is cut off as a weblink begins with the protocol it was found by. */
  lemma LinkIsUrl(text: string, pos: nat, pattern: string)
    requires pattern == HTTPS || pattern == HTTP
    requires StartsAt(text, pattern, pos)
    ensures var n := LinkLength(text, pos); |pattern| <= n && IsUrl(text[pos..pos + n])
  {
    var end := pos + |pattern|;
    assert forall i :: 6 <= i < |pattern| ==> pattern[i] == '/';
    assert forall i :: pos <= i < end ==> text[i] == text[pos..end][i - pos] == pattern[i - pos];
    LinkGoesOn(text, pos, 6, |pattern|);
    var n := LinkLength(text, pos);
    assert text[pos..pos + n][..|pattern|] == text[pos..end] == pattern;
  }

  lemma {:induction false} LinkGoesOn(text: string, pos: nat, from: nat, n: nat)
    requires from <= n && pos + n <= |text| && forall i :: pos + from <= i < pos + n ==> text[i] == '/'
    ensures n <= LinkEnd(text, pos, from)
    ensures LinkEnd(text, pos, from) == n && from < n ==> text[pos + n - 1] == '/'
    decreases n - from
  {
    if from < n {
      LinkGoesOn(text, pos, from + 1, n);
    }
  }

  lemma PieceLinks(text: string, pos: nat, room: nat, weblinks: bool)
    requires pos <= |text| && room > 0
    ensures LinkHolds(PieceFragment(text, pos, NextPiece(text, pos, room, weblinks)), weblinks)
  {
    var p := NextPiece(text, pos, room, weblinks);
    var s := text[pos..pos + p.length];
    if p.link {
      assert weblinks && HttpOffset(text, pos) == At(0);
      LinkFound(text, pos);
      if StartsAt(text, HTTPS, pos) {
        LinkIsUrl(text, pos, HTTPS);
      } else {
        LinkIsUrl(text, pos, HTTP);
      }
      assert s == s[0..|s|];
    }
  }

  lemma LinkFound(text: string, pos: nat)
    requires pos <= |text| && HttpOffset(text, pos) == At(0)
    ensures StartsAt(text, HTTPS, pos) || StartsAt(text, HTTP, pos)
  {
  }

  lemma {:induction false} ProduceLinks(text: string, pos: nat, room: nat, weblinks: bool)
    requires pos <= |text| && room > 0
    ensures LinksHold(Produce(text, pos, room, weblinks).0, weblinks)
    decreases |text| - pos
  {
    hide NextPiece;
    hide LinkHolds;
    var p := NextPiece(text, pos, room, weblinks);
    PieceLinks(text, pos, room, weblinks);
    if !p.last {
      ProduceLinks(text, pos + p.length, room - p.length, weblinks);
    }
  }

  lemma {:induction false} RunLinks(l: Layout, frags: seq<Fragment>, text: string, pos: nat, cols: nat, indent: nat,
                                    weblinks: bool)
    requires pos <= |text| && l.column < cols && indent < cols
    requires LayoutLinksHold(l, weblinks) && LinksHold(frags, weblinks)
    ensures LayoutLinksHold(Run(l, frags, text, pos, cols, indent, weblinks), weblinks)
    decreases |text| - pos
  {
    hide LayoutLinksHold;
    hide LinksHold;
    hide LayOut;
    hide Produce;
    LayOutLinks(l, frags, cols, indent, weblinks);
    if pos < |text| {
      var l' := LayOut(l, frags, cols, indent);
      var (more, end) := Produce(text, pos, cols - l'.column, weblinks);
      ProduceLinks(text, pos, cols - l'.column, weblinks);
      RunLinks(l', more, text, end, cols, indent, weblinks);
    }
  }

  /** Every fragment that carries a weblink shows a part of it, every weblink begins with a
      protocol, and there are none unless they are asked for. */
  lemma FormatLinksHold(line: ChatLine, cols: nat, weblinks: bool)
    ensures LineLinksHold(Format(line, cols, weblinks), weblinks)
  {
    if Visible(line, cols) {
      hide Run;
      var frags := NameFragments(line.name);
      RunLinks(START, frags, line.text, 0, cols, Indentation(line.name, cols), weblinks);
    }
  }

  // ---------------------------------------------------------------------------
  // The layout loop
  // ---------------------------------------------------------------------------

  /** One round of laying out: the first fragment is put down whole or as far as it fits. */
  lemma LayOutStep(l: Layout, frags: seq<Fragment>, cols: nat, indent: nat)
    requires l.column < cols && indent < cols && frags != []
    ensures var frag, room := frags[0], cols - l.column;
      LayOut(l, frags, cols, indent)
      == if |frag.text| <= room then
           var l' := l.Put(frag);
           LayOut(if l'.column == cols || frag.column == INT_MAX then l'.EndLine(indent) else l',
                  frags[1..], cols, indent)
         else
           LayOut(l.Put(frag.(text := frag.text[..room])).EndLine(indent),
                  frags[0 := frag.(text := frag.text[room..], column := 0)], cols, indent)
  {
    var frag, room := frags[0], cols - l.column;
    if |frag.text| > room {
      var rest := frag.(text := frag.text[room..], column := 0);
      assert frags[0 := rest][1..] == frags[1..];
    }
  }

  lemma RunEnds(l: Layout, text: string, cols: nat, indent: nat, weblinks: bool)
    requires l.column < cols && indent < cols
    ensures LayOut(l, [], cols, indent) == l
    ensures Run(l, [], text, |text|, cols, indent, weblinks) == l
  {
  }

  /** Puts fragments down one after the other, and appends every line that this completes. */
  method LayOutFragments(start: Layout, frags: seq<Fragment>, cols: nat, indent: nat, lines: seq<FormattedLine>,
                         added: nat, ghost destination: seq<FormattedLine>)
      returns (layout: Layout, result: seq<FormattedLine>, numAdded: nat)
    requires start.column < cols && indent < cols
    requires lines == destination + start.lines && added == |start.lines|
    ensures layout == LayOut(start, frags, cols, indent) && layout.column < cols
    ensures result == destination + layout.lines && numAdded == |layout.lines|
  {
    hide LayOut;
    var nextFrags := frags;
    layout, result, numAdded := start, lines, added;
    while nextFrags != []
      invariant layout.column < cols
      invariant result == destination + layout.lines && numAdded == |layout.lines|
      invariant LayOut(layout, nextFrags, cols, indent) == LayOut(start, frags, cols, indent)
      decreases |nextFrags|, if nextFrags == [] then 0 else |nextFrags[0].text|
    {
      LayOutStep(layout, nextFrags, cols, indent);
      var frag := nextFrags[0];
      var markNewline := frag.column == INT_MAX;
      var room := cols - layout.column;
      if |frag.text| <= room {
        layout := layout.Put(frag);
        nextFrags := nextFrags[1..];
      } else {
        layout := layout.Put(frag.(text := frag.text[..room]));
        nextFrags := nextFrags[0 := frag.(text := frag.text[room..], column := 0)];
      }
      if layout.column == cols || markNewline {
        result := result + [layout.current];
        numAdded := numAdded + 1;
        layout := layout.EndLine(indent);
      }
    }
    RunEnds(layout, "", cols, indent, false);
  }

  /** Formats a chat line: the lines appended, and how many they are. */
  method FormatChatLine(line: ChatLine, cols: nat, weblinks: bool, destination: seq<FormattedLine>)
      returns (result: seq<FormattedLine>, numAdded: nat)
    ensures result == destination + Format(line, cols, weblinks) && numAdded == |Format(line, cols, weblinks)|
  {
    hide LayOut;
    hide Produce;
    result, numAdded := destination, 0;
    var nextFrags: seq<Fragment> := [];
    if line.name != "" {
      nextFrags := nextFrags + [Fragment("<", 0, "")];
      nextFrags := nextFrags + [Fragment(line.name, 0, "")];
      nextFrags := nextFrags + [Fragment("> ", 0, "")];
    }
    var indent: nat;
    if line.name == "" {
      indent := 0;
    } else if SanitizedSize(line.name) + 3 <= cols / 2 {
      indent := |line.name| + 3;
    } else {
      indent := 2;
    }
    if indent >= cols {
      return;
    }
    assert nextFrags == NameFragments(line.name);
    ghost var end := Run(START, nextFrags, line.text, 0, cols, indent, weblinks);
    assert Format(line, cols, weblinks) == Finish(end);
    var layout, inPos: nat := START, 0;
    while nextFrags != [] || inPos < |line.text|
      invariant inPos <= |line.text| && layout.column < cols
      invariant result == destination + layout.lines && numAdded == |layout.lines|
      invariant Run(layout, nextFrags, line.text, inPos, cols, indent, weblinks) == end
      decreases |line.text| - inPos, |nextFrags|
    {
      layout, result, numAdded := LayOutFragments(layout, nextFrags, cols, indent, result, numAdded, destination);
      nextFrags := [];
      RunEnds(layout, line.text, cols, indent, weblinks);
      if inPos >= |line.text| {
        continue;
      }
      nextFrags, inPos := ProduceFragments(line.text, inPos, cols - layout.column, weblinks);
    }
    RunEnds(layout, line.text, cols, indent, weblinks);
    if numAdded == 0 || layout.current.fragments != [] {
      result := result + [layout.current];
      numAdded := numAdded + 1;
    }
  }

  lemma ProduceStep(text: string, pos: nat, room: nat, weblinks: bool, frags: seq<Fragment>)
    requires pos <= |text| && room > 0
    ensures var p := NextPiece(text, pos, room, weblinks);
      Prepend(frags, Produce(text, pos, room, weblinks))
      == var frags' := frags + [PieceFragment(text, pos, p)];
         if p.last then (frags', pos + p.length)
         else Prepend(frags', Produce(text, pos + p.length, room - p.length, weblinks))
  {
    hide NextPiece;
    var p := NextPiece(text, pos, room, weblinks);
    if !p.last {
      var more := Produce(text, pos + p.length, room - p.length, weblinks);
      assert frags + ([PieceFragment(text, pos, p)] + more.0) == (frags + [PieceFragment(text, pos, p)]) + more.0;
    }
  }

  function Prepend(frags: seq<Fragment>, more: (seq<Fragment>, nat)): (seq<Fragment>, nat) {
    (frags + more.0, more.1)
  }

  /** Cuts the text for the next line into fragments. */
  method ProduceFragments(text: string, start: nat, columns: nat, weblinks: bool)
    returns (frags: seq<Fragment>, inPos: nat)
    requires start <= |text| && columns > 0
    ensures (frags, inPos) == Produce(text, start, columns, weblinks)
  {
    hide NextPiece;
    frags, inPos := [], start;
    assert Prepend([], Produce(text, start, columns, weblinks)).0 == Produce(text, start, columns, weblinks).0;
    var remainingInOutput := columns;
    var markNewline := false;
    while !markNewline
      invariant inPos <= |text|
      invariant markNewline || remainingInOutput > 0
      invariant Produce(text, start, columns, weblinks)
             == if markNewline then (frags, inPos)
                else Prepend(frags, Produce(text, inPos, remainingInOutput, weblinks))
      decreases !markNewline, |text| - inPos
    {
      var piece := CutPiece(text, inPos, remainingInOutput, weblinks);
      ghost var before := frags;
      var s := text[inPos..inPos + piece.length];
      markNewline := piece.last;
      frags := frags + [Fragment(s, if markNewline then INT_MAX else 0, if piece.link then s else "")];
      ProduceStep(text, inPos, remainingInOutput, weblinks, before);
      inPos := inPos + piece.length;
      remainingInOutput := remainingInOutput - Min(piece.length, remainingInOutput);
    }
  }

  /** Determines the length of the next fragment. */
  method CutPiece(text: string, inPos: nat, remainingInOutput: nat, weblinks: bool) returns (piece: Piece)
    requires inPos <= |text| && remainingInOutput > 0
    ensures piece == NextPiece(text, inPos, remainingInOutput, weblinks)
  {
    hide Find;
    hide HttpOffset;
    hide IsSpace;
    hide IsDelimiter;
    hide StartsAt;
    var fragLength, spacePos := 0, 0;
    var remainingInInput := |text| - inPos;
    var http := if weblinks then HttpOffset(text, inPos) else Nowhere;
    while fragLength < remainingInInput && fragLength < remainingInOutput
      invariant fragLength <= remainingInInput && fragLength <= remainingInOutput
      invariant spacePos == LastSpace(text, inPos, fragLength)
    {
      if IsSpace(text[inPos + fragLength]) {
        spacePos := fragLength;
      }
      fragLength := fragLength + 1;
    }
    var markNewline := false;
    if http == Nowhere || http.n >= remainingInOutput {
      markNewline := true;
    } else if http.n == 0 {
      fragLength := 6;
      while fragLength < remainingInInput && !IsSpace(text[inPos + fragLength]) &&
        !IsDelimiter(text[inPos + fragLength])
        invariant 6 <= fragLength <= remainingInInput
        invariant LinkEnd(text, inPos, fragLength) == LinkEnd(text, inPos, 6)
      {
        fragLength := fragLength + 1;
      }
      if text[inPos + fragLength - 1] == ',' || text[inPos + fragLength - 1] == '.' {
        fragLength := fragLength - 1;
      }
      spacePos := fragLength - 1;
      if fragLength >= remainingInOutput {
        markNewline := true;
      }
    } else {
      spacePos := http.n - 1;
      fragLength := http.n;
    }
    if spacePos != 0 && fragLength < remainingInInput {
      fragLength := spacePos + 1;
    }
    piece := Piece(fragLength, markNewline, http == At(0) && http.n < remainingInOutput);
  }
}
