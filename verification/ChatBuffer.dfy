/** The scrollback of the chat console: chat lines, the lines they are shown as, and the view. */
module ChatBuffers {
  import opened ChatLayout

  // ---------------------------------------------------------------------------
  // The formatted lines of many chat lines
  // ---------------------------------------------------------------------------

  function FormatAll(lines: seq<ChatLine>, cols: nat, weblinks: bool): seq<FormattedLine> {
    if lines == [] then [] else Format(lines[0], cols, weblinks) + FormatAll(lines[1..], cols, weblinks)
  }

  lemma {:induction false} FormatAllConcat(a: seq<ChatLine>, b: seq<ChatLine>, cols: nat, weblinks: bool)
    ensures FormatAll(a + b, cols, weblinks) == FormatAll(a, cols, weblinks) + FormatAll(b, cols, weblinks)
  {
    hide Format;
    if a == [] {
      assert a + b == b;
    } else {
      FormatAllConcat(a[1..], b, cols, weblinks);
      assert (a + b)[1..] == a[1..] + b;
      AssociativeLines(Format(a[0], cols, weblinks), FormatAll(a[1..], cols, weblinks), FormatAll(b, cols, weblinks));
    }
  }

  lemma AssociativeLines(a: seq<FormattedLine>, b: seq<FormattedLine>, c: seq<FormattedLine>)
    ensures (a + b) + c == a + (b + c)
  {
  }

  lemma FormatAllSnoc(lines: seq<ChatLine>, line: ChatLine, cols: nat, weblinks: bool)
    ensures FormatAll(lines + [line], cols, weblinks) == FormatAll(lines, cols, weblinks) + Format(line, cols, weblinks)
  {
    FormatAllConcat(lines, [line], cols, weblinks);
    hide Format;
    assert [line][1..] == [];
    assert FormatAll([line], cols, weblinks) == Format(line, cols, weblinks) + FormatAll([], cols, weblinks);
  }

  lemma NothingFormatted(cols: nat, weblinks: bool)
    ensures FormatAll([], cols, weblinks) == []
  {
  }

  /** Without columns nothing is formatted. */
  lemma {:induction false} NoColumns(lines: seq<ChatLine>, weblinks: bool)
    ensures FormatAll(lines, 0, weblinks) == []
  {
    if lines != [] {
      NoColumns(lines[1..], weblinks);
    }
  }

  ghost predicate SameText(a: ChatLine, b: ChatLine) {
    a.name == b.name && a.text == b.text
  }

  /** Ages do not show. */
  lemma {:induction false} AgesDoNotShow(a: seq<ChatLine>, b: seq<ChatLine>, cols: nat, weblinks: bool)
    requires |a| == |b| && forall i :: 0 <= i < |a| ==> SameText(a[i], b[i])
    ensures FormatAll(a, cols, weblinks) == FormatAll(b, cols, weblinks)
  {
    hide Run;
    if a != [] {
      assert SameText(a[0], b[0]);
      forall i | 0 <= i < |a[1..]| ensures SameText(a[1..][i], b[1..][i]) {
        assert SameText(a[i + 1], b[i + 1]);
      }
      AgesDoNotShow(a[1..], b[1..], cols, weblinks);
    }
  }

  // ---------------------------------------------------------------------------
  // Groups: a line marked as the first, and the lines up to the next such
  // ---------------------------------------------------------------------------

  ghost predicate Grouped(f: seq<FormattedLine>) {
    f == [] || f[0].first
  }

  function Rest(f: seq<FormattedLine>): (n: nat)
    ensures n <= |f| && (forall i :: 0 <= i < n ==> !f[i].first) && (n == |f| || f[n].first)
  {
    if f == [] || f[0].first then 0 else 1 + Rest(f[1..])
  }

  lemma RestIs(f: seq<FormattedLine>, n: nat)
    requires n <= |f| && (forall i :: 0 <= i < n ==> !f[i].first) && (n == |f| || f[n].first)
    ensures Rest(f) == n
  {
  }

  /** Without the first c groups. */
  function DropGroups(f: seq<FormattedLine>, c: nat): seq<FormattedLine> {
    if c == 0 || f == [] then f else DropGroups(f[1..][Rest(f[1..])..], c - 1)
  }

  /** One more group, from line i on. */
  lemma DropOneMore(f: seq<FormattedLine>, i: nat, c: nat)
    requires i < |f| && c > 0
    ensures var j := i + 1 + Rest(f[i + 1..]);
      j <= |f| && Grouped(f[j..]) && DropGroups(f[i..], c) == DropGroups(f[j..], c - 1)
  {
    var g := f[i..];
    assert g[1..] == f[i + 1..];
    var n := Rest(f[i + 1..]);
    assert f[i + 1..][n..] == f[i + 1 + n..];
  }

  lemma DropNone(f: seq<FormattedLine>)
    ensures DropGroups(f, 0) == f
  {
  }

  lemma DropFromNothing(c: nat)
    ensures DropGroups([], c) == []
  {
  }

  /** Where the deletion stands: the groups of some chat lines are gone, those of others are to go. */
  ghost predicate Deleting(f: seq<FormattedLine>, delUnformatted: nat, delFormatted: nat, c: nat) {
    && delUnformatted <= c && delFormatted <= |f| && Grouped(f[delFormatted..])
    && DropGroups(f[delFormatted..], c - delUnformatted) == DropGroups(f, c)
  }

  lemma DeletingStarts(f: seq<FormattedLine>, c: nat)
    requires Grouped(f)
    ensures Deleting(f, 0, 0, c)
  {
    assert f[0..] == f;
  }

  lemma DeletingStep(f: seq<FormattedLine>, delUnformatted: nat, delFormatted: nat, c: nat)
    requires Deleting(f, delUnformatted, delFormatted, c) && delUnformatted < c
    ensures delFormatted <= |f|
    ensures delFormatted < |f| ==>
      f[delFormatted].first && Deleting(f, delUnformatted + 1, delFormatted + 1 + Rest(f[delFormatted + 1..]), c)
    ensures delFormatted == |f| ==> Deleting(f, delUnformatted + 1, delFormatted, c)
  {
    hide DropGroups;
    if delFormatted < |f| {
      assert f[delFormatted..][0].first;
      DropOneMore(f, delFormatted, c - delUnformatted);
    } else {
      DropFromNothing(c - delUnformatted);
      DropFromNothing(c - delUnformatted - 1);
    }
  }

  lemma DeletingEnds(f: seq<FormattedLine>, delFormatted: nat, c: nat)
    requires Deleting(f, c, delFormatted, c)
    ensures delFormatted <= |f| && Grouped(f[delFormatted..]) && f[delFormatted..] == DropGroups(f, c)
  {
    DropNone(f[delFormatted..]);
  }

  ghost function Firsts(f: seq<FormattedLine>): nat {
    if f == [] then 0 else Firsts(f[..|f| - 1]) + if f[|f| - 1].first then 1 else 0
  }

  lemma {:induction false} FirstsConcat(a: seq<FormattedLine>, b: seq<FormattedLine>)
    ensures Firsts(a + b) == Firsts(a) + Firsts(b)
  {
    if b == [] {
      assert a + b == a;
    } else {
      FirstsConcat(a, b[..|b| - 1]);
      assert (a + b)[..|a + b| - 1] == a + b[..|b| - 1];
    }
  }

  lemma {:induction false} NoFirsts(f: seq<FormattedLine>)
    requires forall i :: 0 <= i < |f| ==> !f[i].first
    ensures Firsts(f) == 0
  {
    if f != [] {
      NoFirsts(f[..|f| - 1]);
    }
  }

  ghost function VisibleCount(lines: seq<ChatLine>, cols: nat): nat {
    if lines == [] then 0 else VisibleCount(lines[1..], cols) + if Visible(lines[0], cols) then 1 else 0
  }

  lemma {:induction false} VisibleCountConcat(a: seq<ChatLine>, b: seq<ChatLine>, cols: nat)
    ensures VisibleCount(a + b, cols) == VisibleCount(a, cols) + VisibleCount(b, cols)
  {
    if a == [] {
      assert a + b == b;
    } else {
      VisibleCountConcat(a[1..], b, cols);
      assert (a + b)[1..] == a[1..] + b;
    }
  }

  lemma {:induction false} VisibleCountBounds(lines: seq<ChatLine>, cols: nat)
    ensures VisibleCount(lines, cols) <= |lines|
    ensures VisibleCount(lines, cols) == |lines| <==> AllVisible(lines, cols)
    ensures VisibleCount(lines, cols) == 0 <==> NoneVisible(lines, cols)
  {
    if lines != [] {
      var tail := lines[1..];
      VisibleCountBounds(tail, cols);
      assert AllVisible(lines, cols) <==> Visible(lines[0], cols) && AllVisible(tail, cols) by {
        if AllVisible(tail, cols) { assert forall i :: 0 < i < |lines| ==> lines[i] == tail[i - 1]; }
      }
      assert NoneVisible(lines, cols) <==> !Visible(lines[0], cols) && NoneVisible(tail, cols) by {
        if NoneVisible(tail, cols) { assert forall i :: 0 < i < |lines| ==> lines[i] == tail[i - 1]; }
      }
    }
  }

  ghost predicate AllVisible(lines: seq<ChatLine>, cols: nat) {
    forall i :: 0 <= i < |lines| ==> Visible(lines[i], cols)
  }

  ghost predicate NoneVisible(lines: seq<ChatLine>, cols: nat) {
    forall i :: 0 <= i < |lines| ==> !Visible(lines[i], cols)
  }

  /** A visible line makes one group; an invisible one makes nothing. */
  lemma FormatIsGroup(line: ChatLine, cols: nat, weblinks: bool)
    ensures var f := Format(line, cols, weblinks);
      if Visible(line, cols) then f != [] && f[0].first && Firsts(f) == 1 && forall i :: 0 < i < |f| ==> !f[i].first
      else f == []
  {
    if Visible(line, cols) {
      FormatStands(line, cols, weblinks);
      hide Format;
      var f := Format(line, cols, weblinks);
      forall i | 0 <= i < |f| ensures f[i].first <==> i == 0 {
        assert LineStands(f[i], i, cols, Indentation(line.name, cols));
      }
      NoFirsts(f[1..]);
      FirstsConcat([f[0]], f[1..]);
      assert f == [f[0]] + f[1..];
      assert [f[0]][..0] == [];
      assert Firsts([f[0]]) == 1;
    }
  }

  lemma {:induction false} FormatAllGrouped(lines: seq<ChatLine>, cols: nat, weblinks: bool)
    ensures Grouped(FormatAll(lines, cols, weblinks))
    ensures Firsts(FormatAll(lines, cols, weblinks)) == VisibleCount(lines, cols)
  {
    hide Format;
    hide Visible;
    hide Firsts;
    if lines == [] {
      NoFirsts([]);
    } else {
      FormatIsGroup(lines[0], cols, weblinks);
      FormatAllGrouped(lines[1..], cols, weblinks);
      FirstsConcat(Format(lines[0], cols, weblinks), FormatAll(lines[1..], cols, weblinks));
      NoFirsts([]);
    }
  }

  /** Dropping a group drops what a visible line was formatted to. */
  lemma DropOne(line: ChatLine, tail: seq<FormattedLine>, cols: nat, weblinks: bool, c: nat)
    requires Visible(line, cols) && Grouped(tail) && c > 0
    ensures DropGroups(Format(line, cols, weblinks) + tail, c) == DropGroups(tail, c - 1)
  {
    hide Format;
    FormatIsGroup(line, cols, weblinks);
    var f := Format(line, cols, weblinks);
    var g := (f + tail)[1..];
    assert g == f[1..] + tail;
    RestIs(g, |f| - 1);
    assert g[|f| - 1..] == tail;
  }

  lemma {:induction false} DropVisible(lines: seq<ChatLine>, cols: nat, weblinks: bool, c: nat)
    requires c <= |lines| && AllVisible(lines[..c], cols)
    ensures DropGroups(FormatAll(lines, cols, weblinks), c) == FormatAll(lines[c..], cols, weblinks)
  {
    hide Format;
    hide Visible;
    if c == 0 {
      assert lines[0..] == lines;
    } else {
      var tail := lines[1..];
      assert Visible(lines[..c][0], cols);
      assert tail[..c - 1] == lines[..c][1..] && tail[c - 1..] == lines[c..];
      FormatAllGrouped(tail, cols, weblinks);
      DropOne(lines[0], FormatAll(tail, cols, weblinks), cols, weblinks, c);
      DropVisible(tail, cols, weblinks, c - 1);
    }
  }

  /** How many groups are left after dropping some. */
  lemma {:induction false} GroupsLeft(lines: seq<ChatLine>, cols: nat, weblinks: bool, c: nat)
    ensures Firsts(DropGroups(FormatAll(lines, cols, weblinks), c))
         == VisibleCount(lines, cols) - Min(c, VisibleCount(lines, cols))
    ensures c >= VisibleCount(lines, cols) ==> DropGroups(FormatAll(lines, cols, weblinks), c) == []
  {
    hide Format;
    hide Visible;
    hide DropGroups;
    hide Firsts;
    NoFirsts([]);
    DropFromNothing(c);
    if lines == [] {
    } else if c == 0 {
      FormatAllGrouped(lines, cols, weblinks);
      DropNone(FormatAll(lines, cols, weblinks));
      if VisibleCount(lines, cols) == 0 {
        VisibleCountBounds(lines, cols);
        NothingToShow(lines, cols, weblinks);
      }
    } else {
      var tail := FormatAll(lines[1..], cols, weblinks);
      if Visible(lines[0], cols) {
        FormatAllGrouped(lines[1..], cols, weblinks);
        DropOne(lines[0], tail, cols, weblinks, c);
        GroupsLeft(lines[1..], cols, weblinks, c - 1);
      } else {
        FormatIsGroup(lines[0], cols, weblinks);
        assert FormatAll(lines, cols, weblinks) == tail;
        GroupsLeft(lines[1..], cols, weblinks, c);
      }
    }
  }

  /** All lines to be deleted are visible, or none of those to be kept. */
  ghost predicate SafeToDelete(lines: seq<ChatLine>, cols: nat, c: nat)
    requires c <= |lines|
  {
    AllVisible(lines[..c], cols) || NoneVisible(lines[c..], cols)
  }

  /** Dropping as many groups as chat lines leaves what the remaining chat lines are formatted to
      in exactly these cases. */
  lemma DeletionKeepsSync(lines: seq<ChatLine>, cols: nat, weblinks: bool, c: nat)
    requires c <= |lines|
    ensures DropGroups(FormatAll(lines, cols, weblinks), c) == FormatAll(lines[c..], cols, weblinks)
      <==> SafeToDelete(lines, cols, c)
  {
    hide FormatAll;
    hide DropGroups;
    hide VisibleCount;
    hide AllVisible;
    hide NoneVisible;
    hide Firsts;
    GroupsLeft(lines, cols, weblinks, c);
    FormatAllGrouped(lines[c..], cols, weblinks);
    assert lines == lines[..c] + lines[c..];
    VisibleCountConcat(lines[..c], lines[c..], cols);
    VisibleCountBounds(lines[..c], cols);
    VisibleCountBounds(lines[c..], cols);
    if AllVisible(lines[..c], cols) {
      DropVisible(lines, cols, weblinks, c);
    } else if NoneVisible(lines[c..], cols) {
      NothingToShow(lines[c..], cols, weblinks);
    }
  }

  lemma {:induction false} NothingToShow(lines: seq<ChatLine>, cols: nat, weblinks: bool)
    requires NoneVisible(lines, cols)
    ensures FormatAll(lines, cols, weblinks) == []
  {
    if lines != [] {
      NothingToShow(lines[1..], cols, weblinks);
    }
  }

  /** In a console of two columns a line with a name shows nothing, and deleting it takes another
      line off the screen. */
  lemma NarrowConsoleLosesSync()
    ensures var lines := [ChatLine(0.0, "a", ""), ChatLine(0.0, "", "hi")];
      DropGroups(FormatAll(lines, 2, false), 1) != FormatAll(lines[1..], 2, false)
  {
    var lines := [ChatLine(0.0, "a", ""), ChatLine(0.0, "", "hi")];
    DeletionKeepsSync(lines, 2, false, 1);
    assert !Visible(lines[..1][0], 2) && Visible(lines[1..][0], 2);
  }

  /** The number of groups that begin before the lines of chat line k is k. */
  lemma GroupsBefore(lines: seq<ChatLine>, cols: nat, weblinks: bool, k: nat)
    requires k <= |lines| && AllVisible(lines[..k], cols)
    ensures |FormatAll(lines[..k], cols, weblinks)| <= |FormatAll(lines, cols, weblinks)|
    ensures var n := |FormatAll(lines[..k], cols, weblinks)|;
      n <= |FormatAll(lines, cols, weblinks)| && Firsts(FormatAll(lines, cols, weblinks)[..n]) == k
  {
    hide FormatAll;
    hide Firsts;
    assert lines == lines[..k] + lines[k..];
    FormatAllConcat(lines[..k], lines[k..], cols, weblinks);
    FormatAllGrouped(lines[..k], cols, weblinks);
    VisibleCountBounds(lines[..k], cols);
    var f := FormatAll(lines[..k], cols, weblinks);
    assert FormatAll(lines, cols, weblinks)[..|f|] == f;
  }

  // ---------------------------------------------------------------------------
  // The buffer
  // ---------------------------------------------------------------------------

  function Clamp(s: int, low: int, high: int): int {
    var raised := if s < low then low else s;
    if raised > high then high else raised
  }

  function Top(formatted: nat, rows: nat): int {
    if rows == 0 then 0 else if formatted <= rows then formatted - rows else 0
  }

  function Bottom(formatted: nat, rows: nat): int {
    if rows == 0 then 0 else formatted - rows
  }

  lemma ClampInRange(s: int, n: nat, rows: nat)
    ensures Top(n, rows) <= Clamp(s, Top(n, rows), Bottom(n, rows)) <= Bottom(n, rows)
  {
  }

  /** A view that is not at the bottom moves with its line, or to the top if its line goes. */
  lemma ViewAfterDeleting(n: nat, removed: nat, rows: nat, scroll: int)
    requires removed <= n && Top(n, rows) <= scroll < Bottom(n, rows)
    ensures 0 <= scroll < n
    ensures Clamp(scroll - removed, Top(n - removed, rows), Bottom(n - removed, rows))
         == if scroll < removed then Top(n - removed, rows) else scroll - removed
  {
  }

  /** After a deletion the view has the same line on top as before, or is at the top if that line
      is gone. */
  ghost predicate ViewKept(before: seq<FormattedLine>, scrollBefore: int, after: seq<FormattedLine>, scroll: int,
                           rows: nat) {
    var removed := |before| - |after|;
    && removed >= 0
    && if scrollBefore < removed then scroll == Top(|after|, rows)
       else 0 <= scroll < |after| && scroll == scrollBefore - removed && after[scroll] == before[scrollBefore]
  }

  lemma NothingDeleted(f: seq<FormattedLine>, scroll: int, rows: nat)
    requires Top(|f|, rows) <= scroll < Bottom(|f|, rows)
    ensures ViewKept(f, scroll, f, scroll, rows)
  {
  }

  // ---------------------------------------------------------------------------
  // The screen
  // ---------------------------------------------------------------------------

  const BLANK: FormattedLine := FormattedLine([], true)

  /** What is on a row when the view begins at a line. */
  function LineAt(f: seq<FormattedLine>, scroll: int, row: nat): FormattedLine {
    if 0 <= scroll + row < |f| then f[scroll + row] else BLANK
  }

  ghost function Screen(f: seq<FormattedLine>, scroll: int, rows: nat): seq<FormattedLine> {
    seq(rows, row requires 0 <= row => LineAt(f, scroll, row))
  }

  ghost function Blanks(n: nat): seq<FormattedLine> {
    seq(n, _ => BLANK)
  }

  /** A screen that can be filled shows consecutive lines on every row; fewer lines stand at its
      bottom, below the blank rows. */
  lemma ScreenShows(f: seq<FormattedLine>, scroll: int, rows: nat)
    requires rows > 0 && Top(|f|, rows) <= scroll <= Bottom(|f|, rows)
    ensures |f| >= rows ==> 0 <= scroll <= scroll + rows <= |f| && Screen(f, scroll, rows) == f[scroll..scroll + rows]
    ensures |f| <= rows ==> Screen(f, scroll, rows) == Blanks(rows - |f|) + f
  {
  }

  /** A view at the bottom shows the newest chat line on the last rows, or as much of its end as
      there are rows for. */
  lemma NewestLineShown(lines: seq<ChatLine>, cols: nat, weblinks: bool, rows: nat)
    requires lines != []
    ensures var f := FormatAll(lines, cols, weblinks);
      var newest := Format(lines[|lines| - 1], cols, weblinks);
      var n := Min(|newest|, rows);
      && n <= |newest| && n <= rows
      && Screen(f, Bottom(|f|, rows), rows)[rows - n..] == newest[|newest| - n..]
  {
    hide FormatAll;
    hide Format;
    hide Screen;
    var older, newest := lines[..|lines| - 1], lines[|lines| - 1];
    assert lines == older + [newest];
    FormatAllSnoc(older, newest, cols, weblinks);
    EndOnScreen(FormatAll(older, cols, weblinks), Format(newest, cols, weblinks), rows);
  }

  lemma EndOnScreen(above: seq<FormattedLine>, newest: seq<FormattedLine>, rows: nat)
    ensures var f := above + newest;
      var n := Min(|newest|, rows);
      n <= |newest| && n <= rows && Screen(f, Bottom(|f|, rows), rows)[rows - n..] == newest[|newest| - n..]
  {
  }

  /** A view whose top line begins a chat line still shows that chat line on top when the number
      of columns changes, as far as the scroll range allows. */
  lemma ViewKeepsItsLine(lines: seq<ChatLine>, cols: nat, newCols: nat, weblinks: bool, k: nat)
    requires k < |lines| && AllVisible(lines[..k], cols) && Visible(lines[k], newCols)
    ensures |FormatAll(lines[..k], cols, weblinks)| <= |FormatAll(lines, cols, weblinks)|
    ensures Firsts(FormatAll(lines, cols, weblinks)[..|FormatAll(lines[..k], cols, weblinks)|]) == k
    ensures var target := |FormatAll(lines[..k], newCols, weblinks)|;
      && target < |FormatAll(lines, newCols, weblinks)|
      && FormatAll(lines, newCols, weblinks)[target] == Format(lines[k], newCols, weblinks)[0]
  {
    hide FormatAll;
    hide Format;
    hide Firsts;
    GroupsBefore(lines, cols, weblinks, k);
    assert lines == lines[..k] + [lines[k]] + lines[k + 1..];
    FormatAllConcat(lines[..k] + [lines[k]], lines[k + 1..], newCols, weblinks);
    FormatAllSnoc(lines[..k], lines[k], newCols, weblinks);
    FormatIsGroup(lines[k], newCols, weblinks);
  }

  // ---------------------------------------------------------------------------
  // Which chat line is on top
  // ---------------------------------------------------------------------------

  /** Where the k-th chat line begins. */
  ghost function StartOf(lines: seq<ChatLine>, cols: nat, weblinks: bool, k: nat): nat
    requires k <= |lines|
  {
    |FormatAll(lines[..k], cols, weblinks)|
  }

  /** The chat line that a formatted line belongs to, counted by the lines that begin up to it. */
  ghost function TopLine(f: seq<FormattedLine>, scroll: int): int
    requires 0 <= scroll < |f|
  {
    Firsts(f[..scroll + 1]) - 1
  }

  lemma FirstsGrow(f: seq<FormattedLine>, a: nat, b: nat)
    requires a <= b <= |f|
    ensures Firsts(f[..a]) <= Firsts(f[..b])
  {
    assert f[..b] == f[..a] + f[a..b];
    FirstsConcat(f[..a], f[a..b]);
  }

  lemma FirstsNext(f: seq<FormattedLine>, i: nat)
    requires i < |f|
    ensures Firsts(f[..i + 1]) == Firsts(f[..i]) + if f[i].first then 1 else 0
  {
    assert f[..i + 1][..i] == f[..i];
  }

  /** When every chat line is visible, the k-th one begins with a line marked as the first, before
      which k others begin, and ends before the next. */
  lemma StartOfLine(lines: seq<ChatLine>, cols: nat, weblinks: bool, k: nat)
    requires AllVisible(lines, cols) && k < |lines|
    ensures var f := FormatAll(lines, cols, weblinks);
      var start, next := StartOf(lines, cols, weblinks, k), StartOf(lines, cols, weblinks, k + 1);
      start < next <= |f| && f[start].first && Firsts(f[..start]) == k && Firsts(f[..next]) == k + 1
  {
    hide FormatAll;
    hide Format;
    hide Firsts;
    hide Visible;
    hide AllVisible;
    AllVisiblePrefix(lines, cols, k);
    AllVisiblePrefix(lines, cols, k + 1);
    GroupsBefore(lines, cols, weblinks, k);
    GroupsBefore(lines, cols, weblinks, k + 1);
    FormatIsGroup(lines[k], cols, weblinks);
    assert lines[..k + 1] == lines[..k] + [lines[k]];
    FormatAllSnoc(lines[..k], lines[k], cols, weblinks);
    assert lines == lines[..k + 1] + lines[k + 1..];
    FormatAllConcat(lines[..k + 1], lines[k + 1..], cols, weblinks);
  }

  lemma AllVisiblePrefix(lines: seq<ChatLine>, cols: nat, k: nat)
    requires AllVisible(lines, cols) && k <= |lines|
    ensures AllVisible(lines[..k], cols) && (k < |lines| ==> Visible(lines[k], cols))
  {
    hide Visible;
  }

  /** A formatted line belongs to the k-th chat line exactly if it lies between its begin and that
      of the next one. */
  lemma TopLineIs(lines: seq<ChatLine>, cols: nat, weblinks: bool, scroll: int, k: nat)
    requires AllVisible(lines, cols) && k < |lines| && 0 <= scroll < |FormatAll(lines, cols, weblinks)|
    ensures TopLine(FormatAll(lines, cols, weblinks), scroll) == k
       <==> StartOf(lines, cols, weblinks, k) <= scroll < StartOf(lines, cols, weblinks, k + 1)
  {
    hide FormatAll;
    hide Firsts;
    hide AllVisible;
    hide StartOf;
    StartOfLine(lines, cols, weblinks, k);
    var f := FormatAll(lines, cols, weblinks);
    var start, next := StartOf(lines, cols, weblinks, k), StartOf(lines, cols, weblinks, k + 1);
    FirstsNext(f, start);
    if scroll < start {
      FirstsGrow(f, scroll + 1, start);
    } else if scroll < next {
      FirstsGrow(f, start + 1, scroll + 1);
      FirstsGrow(f, scroll + 1, next);
    } else {
      AllFirsts(lines, cols, weblinks);
      if k + 1 < |lines| {
        StartOfLine(lines, cols, weblinks, k + 1);
        FirstsNext(f, next);
        FirstsGrow(f, next + 1, scroll + 1);
      } else {
        StartOfEnd(lines, cols, weblinks);
      }
    }
  }

  lemma StartOfEnd(lines: seq<ChatLine>, cols: nat, weblinks: bool)
    ensures StartOf(lines, cols, weblinks, |lines|) == |FormatAll(lines, cols, weblinks)|
  {
    assert lines[..|lines|] == lines;
  }

  lemma AllFirsts(lines: seq<ChatLine>, cols: nat, weblinks: bool)
    requires AllVisible(lines, cols)
    ensures Firsts(FormatAll(lines, cols, weblinks)) == |lines|
  {
    hide FormatAll;
    FormatAllGrouped(lines, cols, weblinks);
    VisibleCountBounds(lines, cols);
  }

  /** Where a view that is not at the bottom is put when the console gets a new size. */
  ghost function Target(lines: seq<ChatLine>, f: seq<FormattedLine>, scroll: nat, cols: nat, newCols: nat,
                        weblinks: bool): nat
    requires scroll <= |f|
  {
    var k := Firsts(f[..scroll]);
    if newCols != cols && k < |lines| then StartOf(lines, newCols, weblinks, k) else 0
  }

  /** When a new size leaves the chat line on top that was there.  With the same columns the view
      goes to the top of the buffer, as it does with others if its top lies inside the last chat
      line, so that only the oldest chat line can stay; else it goes to the first chat line that
      begins at or below its top, as far as the new bottom allows. */
  ghost predicate KeepsTopLine(lines: seq<ChatLine>, f: seq<FormattedLine>, scroll: nat, cols: nat, newCols: nat,
                               newRows: nat, weblinks: bool)
    requires scroll < |f|
  {
    var j := TopLine(f, scroll);
    var bottom := |FormatAll(lines, newCols, weblinks)| - newRows;
    && bottom >= 0 && 0 <= j < |lines|
    && if newCols == cols || (!f[scroll].first && j == |lines| - 1) then j == 0
       else if f[scroll].first then StartOf(lines, newCols, weblinks, j) <= bottom
       else StartOf(lines, newCols, weblinks, j) <= bottom < StartOf(lines, newCols, weblinks, j + 1)
  }

  /** That is exact. */
  lemma KeepsTopLineExactly(lines: seq<ChatLine>, cols: nat, newCols: nat, newRows: nat, weblinks: bool, scroll: nat)
    requires AllVisible(lines, cols) && AllVisible(lines, newCols) && newRows > 0
    requires scroll < |FormatAll(lines, cols, weblinks)|
    ensures var f, g := FormatAll(lines, cols, weblinks), FormatAll(lines, newCols, weblinks);
      var scroll' := Clamp(Target(lines, f, scroll, cols, newCols, weblinks), Top(|g|, newRows), Bottom(|g|, newRows));
      && scroll' < |g|
      && (0 <= scroll' && TopLine(g, scroll') == TopLine(f, scroll)
          <==> KeepsTopLine(lines, f, scroll, cols, newCols, newRows, weblinks))
  {
    hide FormatAll;
    hide Firsts;
    hide AllVisible;
    hide StartOf;
    var f, g := FormatAll(lines, cols, weblinks), FormatAll(lines, newCols, weblinks);
    var j := TopLine(f, scroll);
    FirstsNext(f, scroll);
    AllFirsts(lines, cols, weblinks);
    FirstsGrow(f, scroll + 1, |f|);
    assert f[..|f|] == f;
    FirstIsMarked(lines, cols, weblinks);
    FirstsGrow(f, 1, scroll + 1);
    FirstsNext(f, 0);
    assert 0 <= j < |lines|;
    StartOfLine(lines, newCols, weblinks, j);
    StartOfNone(lines, newCols, weblinks);
    if j > 0 {
      StartOfLine(lines, newCols, weblinks, j - 1);
    }
    if !f[scroll].first && j + 1 < |lines| {
      StartOfLine(lines, newCols, weblinks, j + 1);
    }
    var scroll' := Clamp(Target(lines, f, scroll, cols, newCols, weblinks), Top(|g|, newRows), Bottom(|g|, newRows));
    if 0 <= scroll' {
      TopLineIs(lines, newCols, weblinks, scroll', j);
    }
  }

  /** A console of one row that shows the second of three chat lines shows the first one when it
      gets a second row. */
  lemma MoreRowsShowTop(weblinks: bool)
    ensures var lines := [ChatLine(0.0, "", "a"), ChatLine(0.0, "", "b"), ChatLine(0.0, "", "c")];
      var f := FormatAll(lines, 3, weblinks);
      var scroll := StartOf(lines, 3, weblinks, 1);
      && Top(|f|, 1) <= scroll < Bottom(|f|, 1) && TopLine(f, scroll) == 1
      && var scroll' := Clamp(Target(lines, f, scroll, 3, 3, weblinks), Top(|f|, 2), Bottom(|f|, 2));
         scroll' == 0 && TopLine(f, scroll') == 0
  {
    var lines := [ChatLine(0.0, "", "a"), ChatLine(0.0, "", "b"), ChatLine(0.0, "", "c")];
    hide FormatAll;
    hide Firsts;
    hide StartOf;
    assert AllVisible(lines, 3);
    StartOfLine(lines, 3, weblinks, 0);
    StartOfLine(lines, 3, weblinks, 1);
    StartOfLine(lines, 3, weblinks, 2);
    StartOfNone(lines, 3, weblinks);
    TopLineIs(lines, 3, weblinks, StartOf(lines, 3, weblinks, 1), 1);
    TopLineIs(lines, 3, weblinks, 0, 0);
  }

  /** A console of one row that shows the second line of the last chat line shows the first chat
      line when it gets a second column. */
  lemma MoreColumnsShowTop(weblinks: bool)
    ensures var lines := [ChatLine(0.0, "", "a"), ChatLine(0.0, "", "bbb")];
      var f, g := FormatAll(lines, 1, weblinks), FormatAll(lines, 2, weblinks);
      var scroll := StartOf(lines, 1, weblinks, 1) + 1;
      && Top(|f|, 1) <= scroll < Bottom(|f|, 1) && TopLine(f, scroll) == 1
      && var scroll' := Clamp(Target(lines, f, scroll, 1, 2, weblinks), Top(|g|, 1), Bottom(|g|, 1));
         0 <= scroll' < |g| && scroll' == 0 && TopLine(g, scroll') == 0
  {
    var lines := [ChatLine(0.0, "", "a"), ChatLine(0.0, "", "bbb")];
    hide FormatAll;
    hide Format;
    hide Firsts;
    hide StartOf;
    assert AllVisible(lines, 1) && AllVisible(lines, 2);
    StartOfLine(lines, 1, weblinks, 0);
    StartOfLine(lines, 1, weblinks, 1);
    StartOfNone(lines, 1, weblinks);
    StartOfEnd(lines, 1, weblinks);
    LengthOfLine(lines, 1, weblinks, 1);
    FormatNeedsLines(lines[1], 1, weblinks);
    var f, scroll := FormatAll(lines, 1, weblinks), StartOf(lines, 1, weblinks, 1) + 1;
    TopLineIs(lines, 1, weblinks, scroll, 1);
    TopLineIs(lines, 1, weblinks, scroll - 1, 1);
    FirstsNext(f, scroll - 1);
    FirstsNext(f, scroll);
    StartOfLine(lines, 2, weblinks, 0);
    StartOfLine(lines, 2, weblinks, 1);
    StartOfNone(lines, 2, weblinks);
    TopLineIs(lines, 2, weblinks, 0, 0);
  }

  lemma LengthOfLine(lines: seq<ChatLine>, cols: nat, weblinks: bool, k: nat)
    requires k < |lines|
    ensures StartOf(lines, cols, weblinks, k + 1)
         == StartOf(lines, cols, weblinks, k) + |Format(lines[k], cols, weblinks)|
  {
    hide Format;
    hide FormatAll;
    assert lines[..k + 1] == lines[..k] + [lines[k]];
    FormatAllSnoc(lines[..k], lines[k], cols, weblinks);
  }

  lemma StartOfNone(lines: seq<ChatLine>, cols: nat, weblinks: bool)
    ensures StartOf(lines, cols, weblinks, 0) == 0
  {
  }

  lemma FirstIsMarked(lines: seq<ChatLine>, cols: nat, weblinks: bool)
    requires FormatAll(lines, cols, weblinks) != []
    ensures FormatAll(lines, cols, weblinks)[0].first
  {
    FormatAllGrouped(lines, cols, weblinks);
  }

  /** No name holds a null character. */
  ghost predicate PlainNames(lines: seq<ChatLine>) {
    forall i :: 0 <= i < |lines| ==> '\0' !in lines[i].name
  }

  /** With three columns or more, or none at all, every deletion is safe. */
  lemma WideIsSafe(lines: seq<ChatLine>, cols: nat, c: nat)
    requires PlainNames(lines) && (cols >= 3 || cols == 0) && c <= |lines|
    ensures SafeToDelete(lines, cols, c)
  {
    forall i | 0 <= i < |lines| ensures Visible(lines[i], cols) <==> cols > 0 {
      VisibleExactly(lines[i], cols);
    }
  }

  /** What the console does with the buffer. */
  datatype Command =
    | Add(name: string, text: string)
    | Delete(count: nat)
    | DeleteOld(maxAge: real)
    | Limit(scrollback: nat)
    | Size(cols: nat, rows: nat)
    | ScrollBy(n: int)
    | ScrollTo(position: int)
    | ScrollDown
    | Wait(dtime: real)

  ghost predicate Plain(command: Command) {
    match command
    case Add(name, _) => '\0' !in name
    case Size(cols, rows) => cols == 0 || rows == 0 || cols >= 3
    case _ => true
  }

  lemma SafeToDeleteNone(lines: seq<ChatLine>, cols: nat)
    ensures SafeToDelete(lines, cols, 0)
  {
  }

  class ChatBuffer {
    var scrollback: nat
    var unformatted: seq<ChatLine>
    var cols: nat
    var rows: nat
    var scroll: int
    var formatted: seq<FormattedLine>
    const weblinks: bool

    /** The view is within the scroll range, and whatever is on top of the screen buffer begins a
        chat line. */
    ghost predicate Valid()
      reads this
    {
      && (rows == 0 <==> cols == 0) && (rows == 0 ==> formatted == [])
      && Grouped(formatted)
      && Top(|formatted|, rows) <= scroll <= Bottom(|formatted|, rows)
    }

    /** The formatted lines are those of the chat lines. */
    ghost predicate InSync()
      reads this
    {
      formatted == FormatAll(unformatted, cols, weblinks)
    }

    ghost predicate AtBottom()
      reads this
    {
      scroll == Bottom(|formatted|, rows)
    }

    constructor (scrollback: nat, weblinks: bool)
      ensures Valid() && InSync() && AtBottom()
      ensures this.scrollback > 0 && (scrollback > 0 ==> this.scrollback == scrollback)
      ensures unformatted == [] && rows == 0 && this.weblinks == weblinks
    {
      this.scrollback := if scrollback == 0 then 1 else scrollback;
      unformatted, formatted := [], [];
      cols, rows, scroll := 0, 0, 0;
      this.weblinks := weblinks;
    }

    method ScrollAbsolute(s: int)
      modifies this`scroll
      ensures scroll == Clamp(s, Top(|formatted|, rows), Bottom(|formatted|, rows))
    {
      var top := Top(|formatted|, rows);
      var bottom := Bottom(|formatted|, rows);
      scroll := s;
      if scroll < top {
        scroll := top;
      }
      if scroll > bottom {
        scroll := bottom;
      }
    }

    method Scroll(n: int)
      requires Valid()
      modifies this`scroll
      ensures Valid() && scroll == Clamp(old(scroll) + n, Top(|formatted|, rows), Bottom(|formatted|, rows))
    {
      ScrollAbsolute(scroll + n);
    }

    method ScrollBottom()
      modifies this`scroll
      ensures AtBottom() && (old(Valid()) ==> Valid())
    {
      scroll := Bottom(|formatted|, rows);
    }

    /** Where the group ends that a line belongs to or ends before. */
    method GroupEnd(from: nat) returns (end: nat)
      requires from <= |formatted|
      ensures end == from + Rest(formatted[from..]) && end <= |formatted|
    {
      end := from;
      while end < |formatted| && !formatted[end].first
        invariant from <= end <= |formatted|
        invariant end + Rest(formatted[end..]) == from + Rest(formatted[from..])
      {
        end := end + 1;
      }
    }

    /** How many chat lines and how many formatted lines to delete. */
    method LinesToDelete(number: nat) returns (delUnformatted: nat, delFormatted: nat)
      requires Grouped(formatted)
      ensures delUnformatted == Min(number, |unformatted|)
      ensures delFormatted <= |formatted| && formatted[delFormatted..] == DropGroups(formatted, delUnformatted)
      ensures Grouped(formatted[delFormatted..])
    {
      hide Deleting;
      hide DropGroups;
      hide Grouped;
      ghost var c := Min(number, |unformatted|);
      DeletingStarts(formatted, c);
      delUnformatted, delFormatted := 0, 0;
      var count := number;
      while count > 0 && delUnformatted < |unformatted|
        invariant delUnformatted <= |unformatted| && count >= 0 && count + delUnformatted == number
        invariant Deleting(formatted, delUnformatted, delFormatted, c)
      {
        DeletingStep(formatted, delUnformatted, delFormatted, c);
        delUnformatted := delUnformatted + 1;
        if delFormatted < |formatted| {
          assert formatted[delFormatted].first;
          delFormatted := GroupEnd(delFormatted + 1);
        }
        count := count - 1;
      }
      DeletingEnds(formatted, delFormatted, c);
    }

    /** Deletes the oldest chat lines and what they are shown as.  A view at the bottom stays
        there; another one stays on the same line unless that line goes. */
    method DeleteOldest(number: nat)
      requires Valid()
      modifies this`unformatted, this`formatted, this`scroll
      ensures Valid()
      ensures var c := Min(number, |old(unformatted)|);
        && unformatted == old(unformatted)[c..]
        && formatted == DropGroups(old(formatted), c)
        && (old(InSync()) ==> (InSync() <==> SafeToDelete(old(unformatted), cols, c)))
      ensures |formatted| <= |old(formatted)|
      ensures old(AtBottom()) ==> AtBottom()
      ensures !old(AtBottom()) ==> ViewKept(old(formatted), old(scroll), formatted, scroll, rows)
    {
      hide FormatAll;
      hide SafeToDelete;
      hide Clamp;
      hide DropGroups;
      var atBottom := scroll == Bottom(|formatted|, rows);
      var delUnformatted, delFormatted := LinesToDelete(number);
      DeletionKeepsSync(unformatted, cols, weblinks, delUnformatted);
      ghost var before := formatted;
      unformatted := unformatted[delUnformatted..];
      formatted := formatted[delFormatted..];
      if atBottom {
        scroll := Bottom(|formatted|, rows);
      } else {
        ViewAfterDeleting(|before|, delFormatted, rows, scroll);
        ScrollAbsolute(scroll - delFormatted);
      }
    }

    /** Deletes the chat lines at the front that are older than a given age. */
    method DeleteByAge(maxAge: real) returns (count: nat)
      requires Valid()
      modifies this`unformatted, this`formatted, this`scroll
      ensures Valid()
      ensures count <= |old(unformatted)| && unformatted == old(unformatted)[count..]
      ensures forall i :: 0 <= i < count ==> old(unformatted)[i].age > maxAge
      ensures unformatted == [] || unformatted[0].age <= maxAge
      ensures formatted == DropGroups(old(formatted), count)
      ensures old(InSync()) ==> (InSync() <==> SafeToDelete(old(unformatted), cols, count))
      ensures old(AtBottom()) ==> AtBottom()
      ensures !old(AtBottom()) ==> ViewKept(old(formatted), old(scroll), formatted, scroll, rows)
    {
      hide ViewKept;
      hide FormatAll;
      hide SafeToDelete;
      hide DropGroups;
      count := 0;
      while count < |unformatted| && unformatted[count].age > maxAge
        invariant count <= |unformatted|
        invariant forall i :: 0 <= i < count ==> unformatted[i].age > maxAge
      {
        count := count + 1;
      }
      DeleteOldest(count);
    }

    /** Appends a chat line; beyond the scrollback limit the oldest lines go.  A view at the bottom
        follows the new line, another one stays on its line unless that line goes. */
    method AddLine(name: string, text: string)
      requires Valid()
      modifies this`unformatted, this`formatted, this`scroll
      ensures Valid() && |unformatted| <= scrollback
      ensures var line := ChatLine(0.0, name, text);
        var all := old(unformatted) + [line];
        var over := if |all| > scrollback then |all| - scrollback else 0;
        && unformatted == all[over..]
        && formatted == DropGroups(old(formatted) + Format(line, cols, weblinks), over)
        && (old(InSync()) ==> (InSync() <==> SafeToDelete(all, cols, over)))
        && (over == 0 && !old(AtBottom()) ==> scroll == old(scroll))
        && (!old(AtBottom()) ==>
              ViewKept(old(formatted) + Format(line, cols, weblinks), old(scroll), formatted, scroll, rows))
      ensures old(AtBottom()) ==> AtBottom()
    {
      hide ViewKept;
      hide FormatAll;
      hide Format;
      hide DropGroups;
      var line := ChatLine(0.0, name, text);
      ghost var before := formatted;
      FormatAllSnoc(unformatted, line, cols, weblinks);
      FormatIsGroup(line, cols, weblinks);
      unformatted := unformatted + [line];
      DropNone(formatted + Format(line, cols, weblinks));
      SafeToDeleteNone(unformatted, cols);
      hide SafeToDelete;
      if rows > 0 {
        var scrolledAtBottom := scroll == Bottom(|formatted|, rows);
        var numAdded;
        formatted, numAdded := FormatChatLine(line, cols, weblinks, formatted);
        if scrolledAtBottom {
          scroll := scroll + numAdded;
        } else {
          NothingDeleted(formatted, scroll, rows);
        }
      }
      if |unformatted| > scrollback {
        DeleteOldest(|unformatted| - scrollback);
      }
    }

    /** Sets the scrollback limit. */
    method Resize(limit: nat)
      requires Valid()
      modifies this`scrollback, this`unformatted, this`formatted, this`scroll
      ensures Valid() && scrollback == limit && |unformatted| <= scrollback
      ensures var over := if |old(unformatted)| > limit then |old(unformatted)| - limit else 0;
        && unformatted == old(unformatted)[over..]
        && formatted == DropGroups(old(formatted), over)
        && (old(InSync()) ==> (InSync() <==> SafeToDelete(old(unformatted), cols, over)))
      ensures old(AtBottom()) ==> AtBottom()
      ensures !old(AtBottom()) ==> ViewKept(old(formatted), old(scroll), formatted, scroll, rows)
    {
      SafeToDeleteNone(unformatted, cols);
      DropNone(formatted);
      hide FormatAll;
      hide SafeToDelete;
      hide DropGroups;
      scrollback := limit;
      if |unformatted| > scrollback {
        DeleteOldest(|unformatted| - scrollback);
      }
    }

    /** Every chat line grows older; what is shown stays. */
    method Step(dtime: real)
      modifies this`unformatted
      ensures |unformatted| == |old(unformatted)|
      ensures forall i :: 0 <= i < |unformatted| ==>
        unformatted[i] == old(unformatted)[i].(age := old(unformatted)[i].age + dtime)
      ensures old(InSync()) ==> InSync()
    {
      var i := 0;
      ghost var before := unformatted;
      while i < |unformatted|
        invariant 0 <= i <= |unformatted| == |before|
        invariant forall k :: 0 <= k < i ==> unformatted[k] == before[k].(age := before[k].age + dtime)
        invariant forall k :: i <= k < |before| ==> unformatted[k] == before[k]
      {
        unformatted := unformatted[i := unformatted[i].(age := unformatted[i].age + dtime)];
        i := i + 1;
      }
      AgesDoNotShow(before, unformatted, cols, weblinks);
    }

    /** Forgets everything, and puts the view where it belongs only if there are no rows. */
    method Clear()
      modifies this
      ensures unformatted == [] && InSync() && rows == old(rows) && cols == old(cols) && scrollback == old(scrollback)
      ensures old(Valid()) ==> (Valid() <==> rows == 0)
    {
      unformatted := [];
      formatted := [];
      scroll := 0;
    }

    /** The line on a row of the screen, or an empty one. */
    method GetFormattedLine(row: nat) returns (line: FormattedLine)
      ensures line == LineAt(formatted, scroll, row)
      ensures row < rows ==> line == Screen(formatted, scroll, rows)[row]
    {
      var index := scroll + row;
      if index >= 0 && index < |formatted| {
        return formatted[index];
      }
      return BLANK;
    }

    /** Where a view that is not at the bottom goes when the console gets other columns: to the
        first chat line that begins at or below its top. */
    ghost function Restored(newCols: nat): nat
      requires Valid() && !AtBottom()
      reads this
    {
      Target(unformatted, formatted, scroll, cols, newCols, weblinks)
    }

    /** How many chat lines begin above the view. */
    method FirstsAbove() returns (n: nat)
      requires Valid() && !AtBottom()
      ensures n == Firsts(formatted[..scroll])
    {
      n := 0;
      var i := 0;
      while i < scroll
        invariant 0 <= i <= scroll && n == Firsts(formatted[..i])
      {
        assert formatted[..i + 1][..i] == formatted[..i];
        if formatted[i].first {
          n := n + 1;
        }
        i := i + 1;
      }
    }

    /** Formats every chat line, and notes where the k-th one starts. */
    method FormatAllLines(newCols: nat, k: nat) returns (start: nat)
      modifies this`formatted
      ensures formatted == FormatAll(unformatted, newCols, weblinks)
      ensures start == if k < |unformatted| then |FormatAll(unformatted[..k], newCols, weblinks)| else 0
    {
      hide FormatAll;
      hide Format;
      NothingFormatted(newCols, weblinks);
      start := 0;
      formatted := [];
      var i := 0;
      while i < |unformatted|
        invariant 0 <= i <= |unformatted| && formatted == FormatAll(unformatted[..i], newCols, weblinks)
        invariant start == if k < i then |FormatAll(unformatted[..k], newCols, weblinks)| else 0
      {
        if i == k {
          start := |formatted|;
        }
        FormatAllSnoc(unformatted[..i], unformatted[i], newCols, weblinks);
        assert unformatted[..i + 1] == unformatted[..i] + [unformatted[i]];
        var added;
        formatted, added := FormatChatLine(unformatted[i], newCols, weblinks, formatted);
        i := i + 1;
      }
      assert unformatted[..i] == unformatted;
    }

    /** A new size of the console. */
    method Reformat(newCols: nat, newRows: nat)
      requires Valid()
      modifies this`cols, this`rows, this`scroll, this`formatted
      ensures Valid()
      ensures newCols == 0 || newRows == 0 ==> rows == 0 && cols == 0
      ensures newCols > 0 && newRows > 0 ==>
        && cols == newCols && rows == newRows
        && formatted == (if newCols == old(cols) then old(formatted) else FormatAll(unformatted, newCols, weblinks))
        && (old(AtBottom()) ==> AtBottom())
        && (newCols == old(cols) && newRows == old(rows) ==> scroll == old(scroll))
        && (!old(AtBottom()) && (newCols != old(cols) || newRows != old(rows)) ==>
              scroll == Clamp(old(Restored(newCols)), Top(|formatted|, rows), Bottom(|formatted|, rows)))
      ensures old(InSync()) || newCols != old(cols) ==> InSync()
      ensures newCols > 0 && newRows > 0 && (newCols != old(cols) || newRows != old(rows)) ==>
        old(InSync()) && !old(AtBottom()) && AllVisible(unformatted, old(cols)) && AllVisible(unformatted, newCols) ==>
          (0 <= scroll && TopLine(formatted, scroll) == old(TopLine(formatted, scroll))
           <==> KeepsTopLine(unformatted, old(formatted), old(scroll), old(cols), newCols, newRows, weblinks))
    {
      hide Clamp;
      hide FormatAll;
      hide Firsts;
      hide AllVisible;
      hide KeepsTopLine;
      hide TopLine;
      if newCols == 0 || newRows == 0 {
        NoColumns(unformatted, weblinks);
        cols := 0;
        rows := 0;
        scroll := 0;
        formatted := [];
      } else if newCols != cols || newRows != rows {
        if InSync() && !AtBottom() && AllVisible(unformatted, cols) && AllVisible(unformatted, newCols) {
          KeepsTopLineExactly(unformatted, cols, newCols, newRows, weblinks, scroll);
        }
        var restoreUnformatted, restoreFormatted := 0, 0;
        var atBottom := scroll == Bottom(|formatted|, rows);
        if !atBottom {
          restoreUnformatted := FirstsAbove();
        }
        if newCols != cols {
          FormatAllGrouped(unformatted, newCols, weblinks);
          restoreFormatted := FormatAllLines(newCols, restoreUnformatted);
        }
        cols := newCols;
        rows := newRows;
        if atBottom {
          ScrollBottom();
        } else {
          ClampInRange(restoreFormatted, |formatted|, rows);
          ScrollAbsolute(restoreFormatted);
        }
      }
    }

    /** A console at least three columns wide, and names without null characters. */
    ghost predicate Wide()
      reads this
    {
      (cols == 0 || cols >= 3) && PlainNames(unformatted)
    }

    method Execute(command: Command)
      requires Valid() && InSync() && Wide() && Plain(command)
      modifies this
      ensures Valid() && InSync() && Wide()
      ensures command.Add? || command.Size? || command.Limit? ==> old(AtBottom()) ==> AtBottom()
    {
      hide SafeToDelete;
      hide FormatAll;
      hide Format;
      hide DropGroups;
      hide Clamp;
      ghost var lines := unformatted;
      match command {
        case Add(name, text) =>
          ghost var all := lines + [ChatLine(0.0, name, text)];
          WideIsSafe(all, cols, if |all| > scrollback then |all| - scrollback else 0);
          AddLine(name, text);
        case Delete(count) =>
          WideIsSafe(lines, cols, Min(count, |lines|));
          DeleteOldest(count);
        case DeleteOld(maxAge) =>
          var count := DeleteByAge(maxAge);
          WideIsSafe(lines, cols, count);
        case Limit(limit) =>
          WideIsSafe(lines, cols, if |lines| > limit then |lines| - limit else 0);
          Resize(limit);
        case Size(newCols, newRows) =>
          Reformat(newCols, newRows);
        case ScrollBy(n) =>
          Scroll(n);
        case ScrollTo(position) =>
          ClampInRange(position, |formatted|, rows);
          ScrollAbsolute(position);
        case ScrollDown =>
          ScrollBottom();
        case Wait(dtime) =>
          Step(dtime);
      }
    }

    /** Whatever the console does, the formatted lines stay those of the chat lines and the view
        stays in range. */
    method ExecuteAll(commands: seq<Command>)
      requires Valid() && InSync() && Wide()
      requires forall i :: 0 <= i < |commands| ==> Plain(commands[i])
      modifies this
      ensures Valid() && InSync() && Wide()
    {
      hide InSync;
      hide Valid;
      hide Wide;
      for i := 0 to |commands|
        invariant Valid() && InSync() && Wide()
      {
        Execute(commands[i]);
      }
    }
  }

  /** A view that Clear leaves out of range: one row of screen and nothing to show on it. */
  method ClearedViewIsLost() returns (buffer: ChatBuffer)
    ensures fresh(buffer) && buffer.rows == 1 && !buffer.Valid()
  {
    buffer := new ChatBuffer(1, false);
    buffer.Reformat(3, 1);
    buffer.Clear();
  }
}
