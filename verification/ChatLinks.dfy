/** Which weblinks of a chat line are found, and what the fragments that show it carry. */
module ChatLinks {
  import opened ChatLayout

  // ---------------------------------------------------------------------------
  // The weblinks of a text
  // ---------------------------------------------------------------------------

  predicate EndsLink(c: char) {
    c == ' ' || '\t' <= c <= '\r' || c == '\'' || c == '\"' || c == ';'
  }

  predicate SecureAt(text: string, i: nat) {
    i + 8 <= |text| && text[i..i + 8] == "https://"
  }

  predicate PlainAt(text: string, i: nat) {
    i + 7 <= |text| && text[i..i + 7] == "http://"
  }

  /** Nothing that ends a weblink lies between the two positions. */
  ghost predicate SameWord(text: string, i: nat, j: nat) {
    i <= j <= |text| && forall k :: i <= k < j ==> !EndsLink(text[k])
  }

  ghost predicate SecureInWord(text: string, i: nat) {
    exists j: nat :: j < i && SecureAt(text, j) && SameWord(text, j, i)
  }

  ghost predicate PlainInWord(text: string, i: nat) {
    exists j: nat :: j < i && PlainAt(text, j) && SameWord(text, j, i)
  }

  ghost predicate SecureAfter(text: string, i: nat) {
    exists j: nat :: i < j && SecureAt(text, j)
  }

  /** Where weblinks begin: at the first https:// of a word, and at an http:// that is the first
      of its word, with no https:// before it there and none anywhere behind it. */
  ghost predicate LinkStart(text: string, i: nat) {
    if SecureAt(text, i) then !SecureInWord(text, i)
    else PlainAt(text, i) && !SecureInWord(text, i) && !PlainInWord(text, i) && !SecureAfter(text, i)
  }

  function WordEnd(text: string, i: nat): (e: nat)
    requires i <= |text|
    ensures i <= e <= |text| && (e < |text| ==> EndsLink(text[e]))
    ensures forall k :: i <= k < e ==> !EndsLink(text[k])
    decreases |text| - i
  {
    if i < |text| && !EndsLink(text[i]) then WordEnd(text, i + 1) else i
  }

  /** Weblinks reach to the end of the word, less one comma or full stop. */
  function LinkStop(text: string, i: nat): (e: nat)
    requires i <= |text|
    ensures e <= |text|
  {
    var e := WordEnd(text, i);
    if e > i && (text[e - 1] == ',' || text[e - 1] == '.') then e - 1 else e
  }

  /** What a fragment must carry that shows the character at p: the weblink that the character is
      part of, or nothing. */
  ghost predicate Carries(text: string, p: nat, weblink: string) {
    && (forall i: nat :: i <= p && i <= |text| && LinkStart(text, i) && p < LinkStop(text, i) ==>
          weblink == text[i..LinkStop(text, i)])
    && ((forall i: nat :: i <= p && i <= |text| && LinkStart(text, i) ==> LinkStop(text, i) <= p) ==> weblink == "")
  }

  /** The same for the characters from a position on, one after the other. */
  ghost predicate AllCarry(text: string, pos: nat, weblinks: seq<string>) {
    pos + |weblinks| <= |text| && forall q :: 0 <= q < |weblinks| ==> Carries(text, pos + q, weblinks[q])
  }

  // ---------------------------------------------------------------------------
  // What is shown, character by character
  // ---------------------------------------------------------------------------

  ghost function EachLink(frag: Fragment): (r: seq<string>)
    ensures |r| == |frag.text| && forall i :: 0 <= i < |r| ==> r[i] == frag.weblink
  {
    seq(|frag.text|, _ => frag.weblink)
  }

  /** The weblink carried for every character of some fragments. */
  ghost function FragmentsLinks(frags: seq<Fragment>): seq<string> {
    if frags == [] then [] else FragmentsLinks(frags[..|frags| - 1]) + EachLink(frags[|frags| - 1])
  }

  ghost function LinesLinks(lines: seq<FormattedLine>): seq<string> {
    if lines == [] then [] else LinesLinks(lines[..|lines| - 1]) + FragmentsLinks(lines[|lines| - 1].fragments)
  }

  ghost function LayoutLinks(l: Layout): seq<string> {
    LinesLinks(l.lines) + FragmentsLinks(l.current.fragments)
  }

  lemma PutOneLink(l: Layout, frag: Fragment)
    ensures LayoutLinks(l.Put(frag)) == LayoutLinks(l) + EachLink(frag)
  {
    var frags := l.current.fragments + [frag.(column := l.column)];
    assert frags[..|frags| - 1] == l.current.fragments;
    assert EachLink(frag.(column := l.column)) == EachLink(frag);
  }

  lemma EndLineOneLink(l: Layout, indent: nat)
    ensures LayoutLinks(l.EndLine(indent)) == LayoutLinks(l)
  {
    var lines := l.lines + [l.current];
    assert lines[..|lines| - 1] == l.lines;
  }

  /** However a fragment is cut up, each of its characters keeps the weblink. */
  lemma {:induction false} PlaceEachLink(l: Layout, frag: Fragment, cols: nat, indent: nat)
    requires l.column < cols && indent < cols
    ensures LayoutLinks(Place(l, frag, cols, indent)) == LayoutLinks(l) + EachLink(frag)
    decreases |frag.text|
  {
    hide LayoutLinks;
    var room := cols - l.column;
    if |frag.text| <= room {
      PutOneLink(l, frag);
      EndLineOneLink(l.Put(frag), indent);
    } else {
      var head, tail := frag.(text := frag.text[..room]), frag.(text := frag.text[room..], column := 0);
      PutOneLink(l, head);
      EndLineOneLink(l.Put(head), indent);
      PlaceEachLink(l.Put(head).EndLine(indent), tail, cols, indent);
      assert EachLink(frag) == EachLink(head) + EachLink(tail);
    }
  }

  lemma {:induction false} LinksFromFront(frags: seq<Fragment>)
    requires frags != []
    ensures FragmentsLinks(frags) == EachLink(frags[0]) + FragmentsLinks(frags[1..])
  {
    var init, last := frags[..|frags| - 1], frags[|frags| - 1];
    if init != [] {
      LinksFromFront(init);
      var tail := frags[1..];
      assert tail[..|tail| - 1] == init[1..];
    } else {
      assert frags[1..] == [];
    }
  }

  lemma {:induction false} LayOutEachLink(l: Layout, frags: seq<Fragment>, cols: nat, indent: nat)
    requires l.column < cols && indent < cols
    ensures LayoutLinks(LayOut(l, frags, cols, indent)) == LayoutLinks(l) + FragmentsLinks(frags)
    decreases |frags|
  {
    hide LayoutLinks;
    hide Place;
    if frags != [] {
      PlaceEachLink(l, frags[0], cols, indent);
      LayOutEachLink(Place(l, frags[0], cols, indent), frags[1..], cols, indent);
      LinksFromFront(frags);
    }
  }

  // ---------------------------------------------------------------------------
  // Finding the weblinks
  // ---------------------------------------------------------------------------

  /** The position is not inside a weblink. */
  ghost predicate Outside(text: string, pos: nat) {
    pos <= |text| && forall i: nat :: i < pos && LinkStart(text, i) ==> LinkStop(text, i) <= pos
  }

  lemma ProtocolGoesOn(text: string, i: nat)
    requires SecureAt(text, i) || PlainAt(text, i)
    ensures i + 7 <= |text| && forall k :: i <= k < i + 7 ==> !EndsLink(text[k])
    ensures text[i + 6] != ',' && text[i + 6] != '.'
  {
    var pattern := if SecureAt(text, i) then "https://" else "http://";
    assert forall k :: i <= k < i + 7 ==> text[k] == text[i..i + |pattern|][k - i] == pattern[k - i];
  }

  /** A weblink that begins in the same word as a later protocol contains it. */
  lemma LinkCovers(text: string, i: nat, pos: nat)
    requires i < pos && SameWord(text, i, pos) && (SecureAt(text, pos) || PlainAt(text, pos))
    ensures pos < LinkStop(text, i)
  {
    ProtocolGoesOn(text, pos);
    assert WordEnd(text, i) >= pos + 7;
  }

  lemma SubWord(text: string, i: nat, j: nat, k: nat)
    requires i <= j <= k && SameWord(text, i, k)
    ensures SameWord(text, j, k) && SameWord(text, i, j)
  {
  }

  lemma JoinWord(text: string, i: nat, j: nat, k: nat)
    requires SameWord(text, i, j) && SameWord(text, j, k)
    ensures SameWord(text, i, k)
  {
  }

  /** A word with an https:// has a weblink that begins at the first one. */
  lemma {:induction false} SecureStart(text: string, j: nat, pos: nat) returns (i: nat)
    requires SecureAt(text, j) && j < pos && SameWord(text, j, pos)
    ensures i < pos && LinkStart(text, i) && SameWord(text, i, pos)
    decreases j
  {
    hide SecureAt;
    hide SameWord;
    i := j;
    if SecureInWord(text, j) {
      var h: nat :| h < j && SecureAt(text, h) && SameWord(text, h, j);
      JoinWord(text, h, j, pos);
      i := SecureStart(text, h, pos);
    }
  }

  /** Where no https:// follows, a word with an http:// has a weblink that begins at the first
      protocol. */
  lemma {:induction false} PlainStart(text: string, j: nat, pos: nat) returns (i: nat)
    requires PlainAt(text, j) && j < pos && SameWord(text, j, pos)
    requires forall h: nat :: pos <= h ==> !SecureAt(text, h)
    ensures i < pos && LinkStart(text, i) && SameWord(text, i, pos)
    decreases j
  {
    hide SecureAt;
    hide PlainAt;
    hide SameWord;
    i := j;
    if PlainInWord(text, j) {
      var h: nat :| h < j && PlainAt(text, h) && SameWord(text, h, j);
      JoinWord(text, h, j, pos);
      i := PlainStart(text, h, pos);
    } else if SecureInWord(text, j) {
      var h: nat :| h < j && SecureAt(text, h) && SameWord(text, h, j);
      JoinWord(text, h, j, pos);
      i := SecureStart(text, h, pos);
    } else if SecureAfter(text, j) {
      var h: nat :| j < h && SecureAt(text, h);
      SubWord(text, j, h, pos);
      i := SecureStart(text, h, pos);
    }
  }

  /** The protocol found next, outside of a weblink, begins one, and there is none before it. */
  lemma NextStart(text: string, pos: nat)
    requires Outside(text, pos)
    ensures var r := HttpOffset(text, pos);
      && (r.At? ==> SecureAt(text, pos + r.n) || PlainAt(text, pos + r.n))
      && (r == At(0) ==> LinkStart(text, pos))
      && forall i: nat :: pos <= i <= |text| && (r.At? ==> i < pos + r.n) ==> !LinkStart(text, i)
  {
    FindIs(text, pos);
    hide SecureAt;
    hide PlainAt;
    hide SameWord;
    var r := HttpOffset(text, pos);
    if r == At(0) && !LinkStart(text, pos) {
      var i: nat;
      if SecureInWord(text, pos) {
        var j: nat :| j < pos && SecureAt(text, j) && SameWord(text, j, pos);
        i := SecureStart(text, j, pos);
      } else {
        var j: nat :| j < pos && PlainAt(text, j) && SameWord(text, j, pos);
        i := PlainStart(text, j, pos);
      }
      LinkCovers(text, i, pos);
      assert false;
    }
  }

  lemma FindIs(text: string, pos: nat)
    requires pos <= |text|
    ensures var r := HttpOffset(text, pos);
      if r.At? then
        && pos + r.n < |text|
        && (SecureAt(text, pos + r.n) || (PlainAt(text, pos + r.n) && forall h: nat :: pos <= h ==> !SecureAt(text, h)))
        && (forall h: nat :: pos <= h < pos + r.n ==> !SecureAt(text, h))
        && ((forall h: nat :: pos <= h < pos + r.n ==> !PlainAt(text, h)) || SecureAt(text, pos + r.n))
      else forall h: nat :: pos <= h ==> !SecureAt(text, h) && !PlainAt(text, h)
  {
    assert forall h: nat :: SecureAt(text, h) == StartsAt(text, HTTPS, h);
    assert forall h: nat :: PlainAt(text, h) == StartsAt(text, HTTP, h);
    hide StartsAt;
    assert forall h: nat :: SecureAt(text, h) || PlainAt(text, h) ==> h < |text|;
    hide SecureAt;
    hide PlainAt;
  }

  lemma {:induction false} LinkEndIs(text: string, pos: nat, n: nat)
    requires pos + n <= |text|
    ensures pos + LinkEnd(text, pos, n) == WordEnd(text, pos + n)
    decreases |text| - pos - n
  {
    if pos + n < |text| && !EndsLink(text[pos + n]) {
      LinkEndIs(text, pos, n + 1);
    }
  }

  /** What is cut off as a weblink reaches exactly as far as it should. */
  lemma LinkLengthIs(text: string, pos: nat)
    requires SecureAt(text, pos) || PlainAt(text, pos)
    ensures pos + 6 <= |text| && pos + LinkLength(text, pos) == LinkStop(text, pos) && LinkStop(text, pos) > pos
  {
    ProtocolGoesOn(text, pos);
    LinkEndIs(text, pos, 6);
    assert WordEnd(text, pos + 6) == WordEnd(text, pos);
  }

  /** No other weblink begins inside of one. */
  lemma NoStartInside(text: string, pos: nat)
    requires LinkStart(text, pos) && pos <= |text|
    ensures forall i: nat :: pos < i < LinkStop(text, pos) ==> !LinkStart(text, i)
  {
    hide SecureAt;
    hide PlainAt;
    forall i: nat | pos < i < LinkStop(text, pos) ensures !LinkStart(text, i) {
      WordReaches(text, pos, i);
    }
  }

  lemma LinkCarries(text: string, pos: nat)
    requires Outside(text, pos) && LinkStart(text, pos) && pos < LinkStop(text, pos)
    ensures var stop := LinkStop(text, pos);
      && Outside(text, stop)
      && AllCarry(text, pos, seq(stop - pos, _ => text[pos..stop]))
  {
    hide LinkStart;
    hide LinkStop;
    hide EndsLink;
    NoStartInside(text, pos);
  }

  lemma TextCarries(text: string, pos: nat, end: nat)
    requires Outside(text, pos) && pos <= end <= |text|
    requires forall i: nat :: pos <= i < end ==> !LinkStart(text, i)
    ensures Outside(text, end)
    ensures AllCarry(text, pos, seq(end - pos, _ => ""))
  {
    hide LinkStart;
    hide LinkStop;
  }

  /** A piece of text is a weblink or has none in it, and does not end inside of one. */
  lemma PieceCarries(text: string, pos: nat, room: nat)
    requires Outside(text, pos) && room > 0
    ensures var p := NextPiece(text, pos, room, true);
      && Outside(text, pos + p.length)
      && AllCarry(text, pos, EachLink(PieceFragment(text, pos, p)))
  {
    OutsideText(text, pos);
    NextStart(text, pos);
    hide HttpOffset;
    hide LinkStart;
    hide SecureAt;
    hide PlainAt;
    hide LinkStop;
    hide AllCarry;
    hide Outside;
    hide LinkEnd;
    hide LastSpace;
    var p := NextPiece(text, pos, room, true);
    var carried := EachLink(PieceFragment(text, pos, p));
    if p.link {
      LinkLengthIs(text, pos);
      hide LinkLength;
      LinkCarries(text, pos);
      assert carried == seq(LinkStop(text, pos) - pos, _ => text[pos..LinkStop(text, pos)]);
    } else {
      PieceStops(text, pos, room);
      TextCarries(text, pos, pos + p.length);
      assert carried == seq(p.length, _ => "");
    }
  }

  /** A piece that is no weblink stops where the next protocol begins, at the latest. */
  lemma PieceStops(text: string, pos: nat, room: nat)
    requires pos <= |text| && room > 0 && !NextPiece(text, pos, room, true).link
    ensures HttpOffset(text, pos).At? ==> NextPiece(text, pos, room, true).length <= HttpOffset(text, pos).n
  {
  }

  lemma AllCarryConcat(text: string, pos: nat, a: seq<string>, b: seq<string>)
    requires AllCarry(text, pos, a) && AllCarry(text, pos + |a|, b)
    ensures AllCarry(text, pos, a + b)
  {
    hide Carries;
    forall q | 0 <= q < |a + b| ensures Carries(text, pos + q, (a + b)[q]) {
      if q >= |a| {
        assert Carries(text, pos + |a| + (q - |a|), b[q - |a|]);
      }
    }
  }

  lemma {:induction false} ProduceCarries(text: string, pos: nat, room: nat)
    requires Outside(text, pos) && room > 0
    ensures var (frags, end) := Produce(text, pos, room, true);
      Outside(text, end) && |FragmentsLinks(frags)| == end - pos && AllCarry(text, pos, FragmentsLinks(frags))
    decreases |text| - pos
  {
    hide NextPiece;
    hide Outside;
    hide AllCarry;
    hide Produce;
    hide FragmentsLinks;
    assert pos <= |text| by { OutsideText(text, pos); }
    ProduceUnfold(text, pos, room, true);
    PieceCarries(text, pos, room);
    var p := NextPiece(text, pos, room, true);
    var frag := PieceFragment(text, pos, p);
    if p.last {
      OneLink(frag);
    } else {
      var (more, end) := Produce(text, pos + p.length, room - p.length, true);
      ProduceCarries(text, pos + p.length, room - p.length);
      ConsLinks(frag, more);
      AllCarryConcat(text, pos, EachLink(frag), FragmentsLinks(more));
    }
  }

  lemma OutsideText(text: string, pos: nat)
    requires Outside(text, pos)
    ensures pos <= |text|
  {
  }

  lemma OneLink(frag: Fragment)
    ensures FragmentsLinks([frag]) == EachLink(frag)
  {
    assert [frag][..0] == [];
  }

  lemma ConsLinks(frag: Fragment, frags: seq<Fragment>)
    ensures FragmentsLinks([frag] + frags) == EachLink(frag) + FragmentsLinks(frags)
  {
    LinksFromFront([frag] + frags);
    assert ([frag] + frags)[1..] == frags;
  }

  lemma {:induction false} RunCarries(l: Layout, frags: seq<Fragment>, text: string, pos: nat, cols: nat, indent: nat)
    requires Outside(text, pos) && l.column < cols && indent < cols
    ensures pos <= |text|
    ensures var r := LayoutLinks(Run(l, frags, text, pos, cols, indent, true));
      var n := |LayoutLinks(l)| + |FragmentsLinks(frags)|;
      && |r| == n + |text| - pos && r[..n] == LayoutLinks(l) + FragmentsLinks(frags)
      && AllCarry(text, pos, r[n..])
    decreases |text| - pos
  {
    hide FragmentsLinks;
    hide LayoutLinks;
    hide LayOut;
    hide Produce;
    hide Outside;
    hide AllCarry;
    OutsideText(text, pos);
    var l' := LayOut(l, frags, cols, indent);
    LayOutEachLink(l, frags, cols, indent);
    var before := LayoutLinks(l');
    if pos == |text| {
      assert before[|before|..] == [];
      NothingCarries(text);
    } else {
      var (more, end) := Produce(text, pos, cols - l'.column, true);
      ProduceCarries(text, pos, cols - l'.column);
      RunCarries(l', more, text, end, cols, indent);
      var r := LayoutLinks(Run(l', more, text, end, cols, indent, true));
      var n := |before| + |FragmentsLinks(more)|;
      AllCarryConcat(text, pos, FragmentsLinks(more), r[n..]);
      assert r[|before|..] == FragmentsLinks(more) + r[n..] by {
        assert r == r[..n] + r[n..];
      }
      assert r[..|before|] == r[..n][..|before|];
    }
  }

  lemma NothingCarries(text: string)
    ensures AllCarry(text, |text|, [])
  {
  }

  // ---------------------------------------------------------------------------
  // The whole line
  // ---------------------------------------------------------------------------

  /** The number of characters shown before the message. */
  function NameSize(name: string): nat {
    if name == "" then 0 else |name| + 3
  }

  /** With weblinks on, every character of the message is shown by a fragment that carries exactly
      the weblink it is part of, or none; the name carries none. */
  lemma FormatShowsLinks(line: ChatLine, cols: nat)
    requires Visible(line, cols)
    ensures var n, weblinks := NameSize(line.name), LinesLinks(Format(line, cols, true));
      && |weblinks| == n + |line.text|
      && (forall q :: 0 <= q < n ==> weblinks[q] == "")
      && AllCarry(line.text, 0, weblinks[n..])
  {
    hide Run;
    hide LinesLinks;
    hide LayoutLinks;
    hide FragmentsLinks;
    hide NameFragments;
    hide Indentation;
    hide AllCarry;
    hide Outside;
    var frags, indent := NameFragments(line.name), Indentation(line.name, cols);
    var l := Run(START, frags, line.text, 0, cols, indent, true);
    OutsideAtFirst(line.text);
    RunCarries(START, frags, line.text, 0, cols, indent);
    FinishLinks(l);
    NameLinks(line.name);
    var r, n := LayoutLinks(l), NameSize(line.name);
    assert r[..n] == FragmentsLinks(frags);
    assert forall q :: 0 <= q < n ==> r[q] == r[..n][q];
  }

  lemma OutsideAtFirst(text: string)
    ensures Outside(text, 0)
    ensures LayoutLinks(START) == []
  {
  }

  lemma FinishLinks(l: Layout)
    ensures LinesLinks(Finish(l)) == LayoutLinks(l)
  {
    EndLineOneLink(l, 0);
  }

  lemma NameLinks(name: string)
    ensures var r := FragmentsLinks(NameFragments(name));
      |r| == NameSize(name) && forall q :: 0 <= q < |r| ==> r[q] == ""
  {
    if name != "" {
      var a, b, c := Fragment("<", 0, ""), Fragment(name, 0, ""), Fragment("> ", 0, "");
      assert [a, b, c][..2] == [a, b] && [a, b][..1] == [a];
      assert FragmentsLinks([a]) == EachLink(a);
      assert FragmentsLinks([a, b]) == EachLink(a) + EachLink(b);
    }
  }

  /** The characters from a position up to another are shown as one weblink. */
  ghost predicate ShownAs(weblinks: seq<string>, from: nat, stop: nat, weblink: string) {
    stop <= |weblinks| && forall q :: from <= q < stop ==> weblinks[q] == weblink
  }

  /** An http:// that is the first of its word is shown as a weblink, up to the end of the word
      less one comma or full stop, exactly if no https:// follows anywhere in the text. */
  lemma PlainLinkExactly(line: ChatLine, cols: nat, i: nat)
    requires Visible(line, cols) && PlainAt(line.text, i)
    requires !SecureInWord(line.text, i) && !PlainInWord(line.text, i)
    ensures var n, stop := NameSize(line.name), LinkStop(line.text, i);
      && i < stop
      && (ShownAs(LinesLinks(Format(line, cols, true)), n + i, n + stop, line.text[i..stop])
          <==> !SecureAfter(line.text, i))
  {
    var text, n, weblinks := line.text, NameSize(line.name), LinesLinks(Format(line, cols, true));
    FormatShowsLinks(line, cols);
    LinkLengthIs(text, i);
    PlainOrSecure(text, i);
    hide Format;
    hide SecureAt;
    hide PlainAt;
    hide LinkStop;
    hide AllCarry;
    hide ShownAs;
    hide LinesLinks;
    if SecureAfter(text, i) {
      NotInside(text, i);
      NoLinkAt(text, n, weblinks, i);
    } else {
      LinkAt(text, n, weblinks, i);
    }
  }

  lemma PlainOrSecure(text: string, i: nat)
    requires PlainAt(text, i)
    ensures !SecureAt(text, i)
  {
    assert text[i + 4] == text[i..i + 7][4] == ':';
    assert i + 8 <= |text| ==> text[i..i + 8][4] == text[i + 4];
  }

  /** A position with no protocol before it in its word is not inside a weblink that begins before it. */
  lemma NotInside(text: string, i: nat)
    requires i <= |text| && !SecureInWord(text, i) && !PlainInWord(text, i)
    ensures forall j: nat :: j < i && LinkStart(text, j) ==> LinkStop(text, j) <= i
  {
    hide SecureAt;
    hide PlainAt;
    forall j: nat | j < i && LinkStart(text, j) ensures LinkStop(text, j) <= i {
      WordReaches(text, j, i);
    }
  }

  lemma WordReaches(text: string, j: nat, i: nat)
    requires j <= i <= |text|
    ensures SameWord(text, j, i) || LinkStop(text, j) <= i
  {
  }

  lemma NoLinkAt(text: string, n: nat, weblinks: seq<string>, i: nat)
    requires |weblinks| == n + |text| && AllCarry(text, 0, weblinks[n..])
    requires i <= |text| && i < LinkStop(text, i)
    requires !LinkStart(text, i) && forall j: nat :: j < i && LinkStart(text, j) ==> LinkStop(text, j) <= i
    ensures !ShownAs(weblinks, n + i, n + LinkStop(text, i), text[i..LinkStop(text, i)])
  {
    hide LinkStart;
    hide LinkStop;
    assert Carries(text, 0 + i, weblinks[n..][i]);
    assert weblinks[n..][i] == weblinks[n + i] == "";
  }

  /** An https:// that is the first of its word is always shown as a weblink. */
  lemma SecureLinkAlways(line: ChatLine, cols: nat, i: nat)
    requires Visible(line, cols) && SecureAt(line.text, i) && !SecureInWord(line.text, i)
    ensures var n, stop := NameSize(line.name), LinkStop(line.text, i);
      i < stop && ShownAs(LinesLinks(Format(line, cols, true)), n + i, n + stop, line.text[i..stop])
  {
    FormatShowsLinks(line, cols);
    LinkLengthIs(line.text, i);
    LinkAt(line.text, NameSize(line.name), LinesLinks(Format(line, cols, true)), i);
  }

  /** Every https://, and every http:// with no https:// behind it, is shown as part of a weblink
      that begins with a protocol in the same word. */
  lemma ProtocolInLink(line: ChatLine, cols: nat, i: nat) returns (j: nat)
    requires Visible(line, cols)
    requires SecureAt(line.text, i) || (PlainAt(line.text, i) && !SecureAfter(line.text, i))
    ensures j <= i && SameWord(line.text, j, i) && (SecureAt(line.text, j) || PlainAt(line.text, j))
    ensures var n, stop := NameSize(line.name), LinkStop(line.text, j);
      i < stop && ShownAs(LinesLinks(Format(line, cols, true)), n + j, n + stop, line.text[j..stop])
  {
    var text := line.text;
    FormatShowsLinks(line, cols);
    j := CoveringLink(text, i);
    hide *;
    LinkAt(text, NameSize(line.name), LinesLinks(Format(line, cols, true)), j);
  }

  lemma CoveringLink(text: string, i: nat) returns (j: nat)
    requires SecureAt(text, i) || (PlainAt(text, i) && !SecureAfter(text, i))
    ensures j <= i <= |text| && LinkStart(text, j) && (SecureAt(text, j) || PlainAt(text, j))
    ensures SameWord(text, j, i) && i < LinkStop(text, j)
  {
    LinkLengthIs(text, i);
    hide SecureAt;
    hide PlainAt;
    hide LinkStop;
    hide SameWord;
    j := i;
    if LinkStart(text, i) {
      EmptyWord(text, i);
    } else {
      if SecureInWord(text, i) {
        var h: nat :| h < i && SecureAt(text, h) && SameWord(text, h, i);
        j := SecureStart(text, h, i);
      } else {
        var h: nat :| h < i && PlainAt(text, h) && SameWord(text, h, i);
        j := PlainStart(text, h, i);
      }
      LinkCovers(text, j, i);
    }
  }

  lemma EmptyWord(text: string, i: nat)
    requires i <= |text|
    ensures SameWord(text, i, i)
  {
  }

  lemma LinkAt(text: string, n: nat, weblinks: seq<string>, i: nat)
    requires |weblinks| == n + |text| && AllCarry(text, 0, weblinks[n..])
    requires i <= |text| && LinkStart(text, i)
    ensures ShownAs(weblinks, n + i, n + LinkStop(text, i), text[i..LinkStop(text, i)])
  {
  }

  /** Two addresses in a row, the plain one first: only the secure one becomes a weblink. */
  lemma PlainBeforeSecure(line: ChatLine, cols: nat)
    requires Visible(line, cols) && line.text == "http://a https://b"
    ensures var n, weblinks := NameSize(line.name), LinesLinks(Format(line, cols, true));
      ShownAs(weblinks, n + 9, n + 18, "https://b") && !ShownAs(weblinks, n, n + 8, "http://a")
  {
    TwoAddresses(line.text);
    hide *;
    PlainLinkExactly(line, cols, 0);
    SecureLinkAlways(line, cols, 9);
  }

  lemma TwoAddresses(text: string)
    requires text == "http://a https://b"
    ensures |text| == 18 && PlainAt(text, 0) && SecureAt(text, 9) && SecureAfter(text, 0)
    ensures LinkStop(text, 0) == 8 && LinkStop(text, 9) == 18
    ensures text[0..8] == "http://a" && text[9..18] == "https://b"
    ensures !SecureInWord(text, 0) && !PlainInWord(text, 0) && !SecureInWord(text, 9)
  {
    assert text[8] == ' ' && SecureAt(text, 9);
    assert WordEnd(text, 0) == 8 && WordEnd(text, 9) == 18;
    assert forall j :: 0 <= j < 9 ==> !SameWord(text, j, 9);
  }
}
