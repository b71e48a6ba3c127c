/**
 * `_normalize_cell` (scripts/make_amsterdam_locations.py): the clean-up applied to the
 * text of every table cell taken from the Wikipedia page.
 */
module CellText {
  import opened Text
  import opened WordSplit

  const NoBreakSpace: char := '\U{00A0}'
  const SoftHyphen: char := '\U{00AD}'
  const ZeroWidthSpace: char := '\U{200B}'

  /** `s.replace(from, to)` for single characters. */
  function ReplaceChar(s: string, from: char, to: char): (r: string)
    ensures |r| == |s|
    ensures forall i :: 0 <= i < |s| ==> r[i] == (if s[i] == from then to else s[i])
  {
    seq(|s|, i requires 0 <= i < |s| => if s[i] == from then to else s[i])
  }

  /** The no-break space is the only character the first replacement changes, and it becomes whitespace. */
  lemma NoBreakSpaceReplaced(s: string)
    ensures NoBreakSpace !in ReplaceChar(s, NoBreakSpace, ' ')
    ensures ReplaceChar(s, NoBreakSpace, ' ') == s <==> NoBreakSpace !in s
    ensures Without(ReplaceChar(s, NoBreakSpace, ' '), IsSpace) == Without(s, IsSpace)
  {
    var r := ReplaceChar(s, NoBreakSpace, ' ');
    if NoBreakSpace in s {
      var i :| 0 <= i < |s| && s[i] == NoBreakSpace;
      assert r[i] != s[i];
    }
    assert IsSpace(NoBreakSpace) && IsSpace(' ');
    WithoutReplaced(s, r, IsSpace);
  }

  /** The class holding just `c`. */
  function IsChar(c: char): char -> bool {
    x => x == c
  }

  /** `s.replace(c, "")`: every occurrence of `c` goes, every other character stays as often as it was. */
  function DeleteChar(s: string, c: char): (r: string)
    ensures forall i :: 0 <= i < |r| ==> r[i] != c && r[i] in s
    ensures multiset(r) == multiset(s)[c := 0]
  {
    WithoutCounts(s, IsChar(c));
    Without(s, IsChar(c))
  }

  /** Deleting works piece by piece, so the characters that stay keep their order. */
  lemma DeleteCharAppend(s: string, t: string, c: char)
    ensures DeleteChar(s + t, c) == DeleteChar(s, c) + DeleteChar(t, c)
  {
    WithoutAppend(s, t, IsChar(c));
  }

  lemma DeleteCharAbsent(s: string, c: char)
    requires forall i :: 0 <= i < |s| ==> s[i] != c
    ensures DeleteChar(s, c) == s
  {
    WithoutNone(s, IsChar(c));
  }

  function IndexOf(s: string, c: char): (k: nat)
    requires c in s
    ensures k < |s| && s[k] == c
    decreases |s|
  {
    if s[0] == c then 0 else IndexOf(s[1..], c) + 1
  }

  /**
   * `re.sub(r"\[[^\]]*\]", "", s)`: scanning from the left, a `[` that has a `]` somewhere
   * after it starts a footnote marker that ends at the first such `]`, and the marker is
   * removed; a `[` with no `]` after it is kept.
   */
  function StripFootnotes(s: string): (r: string)
    decreases |s|
  {
    if s == [] then []
    else if s[0] == '[' && ']' in s[1..] then StripFootnotes(s[1..][IndexOf(s[1..], ']') + 1..])
    else [s[0]] + StripFootnotes(s[1..])
  }

  /** No `[` is followed, anywhere later, by a `]`: nothing left for the footnote pattern. */
  predicate NoFootnote(s: string) {
    forall i, j :: 0 <= i < j < |s| && s[i] == '[' ==> s[j] != ']'
  }

  predicate NotClosing(c: char) {
    c != ']'
  }

  predicate Visible(c: char) {
    c != SoftHyphen && c != ZeroWidthSpace
  }

  /** Removing footnotes introduces no character: a property of every character is kept. */
  lemma {:induction false} StripFootnotesPreserves(s: string, q: char -> bool)
    requires All(s, q)
    ensures All(StripFootnotes(s), q)
    decreases |s|
  {
    if s != [] {
      if s[0] == '[' && ']' in s[1..] {
        var t := s[1..][IndexOf(s[1..], ']') + 1..];
        assert forall i :: 0 <= i < |t| ==> t[i] == s[|s| - |t| + i];
        StripFootnotesPreserves(t, q);
      } else {
        StripFootnotesPreserves(s[1..], q);
        assert StripFootnotes(s) == [s[0]] + StripFootnotes(s[1..]);
      }
    }
  }

  lemma NoFootnoteSuffix(s: string, k: nat)
    requires NoFootnote(s) && k <= |s|
    ensures NoFootnote(s[k..])
  {
    var t := s[k..];
    forall i, j | 0 <= i < j < |t| && t[i] == '['
      ensures t[j] != ']'
    {
      assert t[i] == s[k + i] && t[j] == s[k + j];
    }
  }

  lemma NoFootnotePrepend(x: char, c: string)
    requires NoFootnote(c) && (x == '[' ==> All(c, NotClosing))
    ensures NoFootnote([x] + c)
  {
    var r := [x] + c;
    forall i, j | 0 <= i < j < |r| && r[i] == '['
      ensures r[j] != ']'
    {
      assert r[j] == c[j - 1];
      if i > 0 {
        assert r[i] == c[i - 1];
      }
    }
  }

  lemma {:induction false} StripFootnotesClean(s: string)
    ensures NoFootnote(StripFootnotes(s))
    decreases |s|
  {
    if s != [] {
      if s[0] == '[' && ']' in s[1..] {
        StripFootnotesClean(s[1..][IndexOf(s[1..], ']') + 1..]);
      } else {
        var rest := StripFootnotes(s[1..]);
        var r := StripFootnotes(s);
        StripFootnotesClean(s[1..]);
        assert r == [s[0]] + rest;
        if s[0] == '[' {
          assert All(s[1..], NotClosing);
          StripFootnotesPreserves(s[1..], NotClosing);
        }
        NoFootnotePrepend(s[0], rest);
      }
    }
  }

  lemma {:induction false} StripFootnotesKeeps(s: string)
    requires NoFootnote(s)
    ensures StripFootnotes(s) == s
    decreases |s|
  {
    if s != [] {
      if s[0] == '[' {
        forall k | 0 <= k < |s[1..]|
          ensures s[1..][k] != ']'
        {
          assert s[1..][k] == s[k + 1];
        }
        assert ']' !in s[1..];
      }
      StripFootnotesKeeps(s[1..]);
      assert s == [s[0]] + s[1..];
    }
  }

  /** `IndexOf` finds the first occurrence. */
  lemma {:induction false} IndexOfFirst(x: string, c: char, y: string)
    requires c !in x
    ensures IndexOf(x + [c] + y, c) == |x|
    decreases |x|
  {
    if x != [] {
      assert (x + [c] + y)[1..] == x[1..] + [c] + y;
      IndexOfFirst(x[1..], c, y);
    }
  }

  /**
   * Only footnote markers are removed: a `[`, the text up to the first `]` after it, and that
   * `]` disappear, and the text before the marker is kept as it was.
   */
  lemma {:induction false} StripFootnotesMarker(a: string, m: string, b: string)
    requires '[' !in a && ']' !in m
    ensures StripFootnotes(a + "[" + m + "]" + b) == a + StripFootnotes(b)
    decreases |a|
  {
    var s := a + "[" + m + "]" + b;
    if a == [] {
      assert s[1..] == m + "]" + b;
      IndexOfFirst(m, ']', b);
      assert s[1..][|m| + 1..] == b;
    } else {
      assert s[0] == a[0] && s[1..] == a[1..] + "[" + m + "]" + b;
      StripFootnotesMarker(a[1..], m, b);
      assert a == [a[0]] + a[1..];
    }
  }

  /** Collapsing whitespace into single spaces creates no footnote. */
  lemma {:induction false} CollapseKeepsNoFootnote(s: string)
    requires NoFootnote(s)
    ensures NoFootnote(CollapseRuns(s, IsSpace, ' '))
    decreases |s|
  {
    if s != [] {
      var r := CollapseRuns(s, IsSpace, ' ');
      var t := if IsSpace(s[0]) then TrimStart(s[1..], IsSpace) else s[1..];
      var c := CollapseRuns(t, IsSpace, ' ');
      NoFootnoteSuffix(s, |s| - |t|);
      CollapseKeepsNoFootnote(t);
      var head := if IsSpace(s[0]) then ' ' else s[0];
      assert r == [head] + c;
      if head == '[' {
        assert t == s[1..];
        assert All(t, NotClosing);
        CollapseRunsPreserves(t, IsSpace, ' ', NotClosing);
      }
      NoFootnotePrepend(head, c);
    }
  }

  /**
   * What `_normalize_cell` guarantees: no surrounding whitespace, no soft hyphen or
   * zero-width space, no no-break space, no footnote marker, and every whitespace
   * character is a single plain space.
   */
  predicate IsNormalCell(r: string) {
    && (r == [] || (!IsSpace(r[0]) && !IsSpace(r[|r| - 1])))
    && (forall i :: 0 <= i < |r| ==> r[i] != NoBreakSpace && Visible(r[i]))
    && NoFootnote(r)
    && SingleRuns(r, IsSpace, ' ')
  }

  /** The facts of a normal cell that hold of every slice: all but the edges. */
  predicate Clean(d: string) {
    All(d, Visible) && NoFootnote(d) && SingleRuns(d, IsSpace, ' ')
  }

  /** A slice of a clean string is clean. */
  lemma SliceClean(d: string, a: nat, b: nat)
    requires a <= b <= |d| && Clean(d)
    ensures Clean(d[a..b])
  {
    var r := d[a..b];
    assert forall i :: 0 <= i < |r| ==> r[i] == d[a + i];
    forall i, j | 0 <= i < j < |r| && r[i] == '['
      ensures r[j] != ']'
    {
      assert r[i] == d[a + i] && r[j] == d[a + j];
    }
  }

  /** Stripping a clean string leaves a normal cell. */
  lemma StripNormal(d: string)
    requires Clean(d)
    ensures IsNormalCell(Strip(d))
  {
    TrimStartClean(d);
    TrimEndClean(TrimStart(d, IsSpace));
    StripEdges(d);
    EdgesNormal(Strip(d));
  }

  lemma StripEdges(d: string)
    ensures var r := Strip(d); r != [] ==> !IsSpace(r[0]) && !IsSpace(r[|r| - 1])
  {
  }

  lemma TrimStartClean(d: string)
    requires Clean(d)
    ensures Clean(TrimStart(d, IsSpace))
  {
    SuffixClean(d, TrimStart(d, IsSpace));
  }

  lemma SuffixClean(d: string, t: string)
    requires Clean(d) && |t| <= |d| && t == d[|d| - |t|..]
    ensures Clean(t)
  {
    SliceClean(d, |d| - |t|, |d|);
    assert d[|d| - |t|..|d|] == t;
  }

  lemma TrimEndClean(d: string)
    requires Clean(d)
    ensures Clean(TrimEnd(d, IsSpace))
  {
    SliceClean(d, 0, |TrimEnd(d, IsSpace)|);
  }

  /** A clean string that neither starts nor ends with whitespace is normal. */
  lemma EdgesNormal(r: string)
    requires Clean(r) && (r != [] ==> !IsSpace(r[0]) && !IsSpace(r[|r| - 1]))
    ensures IsNormalCell(r)
  {
    NoBreakSpaceGone(r);
  }

  /** With single runs, every whitespace character is a plain space, so none is a no-break space. */
  lemma NoBreakSpaceGone(r: string)
    requires SingleRuns(r, IsSpace, ' ')
    ensures forall i :: 0 <= i < |r| ==> r[i] != NoBreakSpace
  {
    assert IsSpace(NoBreakSpace) && NoBreakSpace != ' ';
  }

  /**
   * The first three steps of `_normalize_cell`: no-break spaces become plain spaces, soft
   * hyphens and zero-width spaces go, and nothing else changes.
   */
  function Unhidden(text: string): (r: string)
    ensures All(r, Visible) && NoBreakSpace !in r
    ensures multiset(r) == multiset(ReplaceChar(text, NoBreakSpace, ' '))[SoftHyphen := 0][ZeroWidthSpace := 0]
  {
    NoBreakSpaceReplaced(text);
    DeleteChar(DeleteChar(ReplaceChar(text, NoBreakSpace, ' '), SoftHyphen), ZeroWidthSpace)
  }

  /** The first three steps work piece by piece, so the characters that stay keep their order. */
  lemma UnhiddenAppend(s: string, t: string)
    ensures Unhidden(s + t) == Unhidden(s) + Unhidden(t)
  {
    var rs := ReplaceChar(s, NoBreakSpace, ' ');
    var rt := ReplaceChar(t, NoBreakSpace, ' ');
    assert ReplaceChar(s + t, NoBreakSpace, ' ') == rs + rt;
    DeleteCharAppend(rs, rt, SoftHyphen);
    DeleteCharAppend(DeleteChar(rs, SoftHyphen), DeleteChar(rt, SoftHyphen), ZeroWidthSpace);
  }

  /** `_normalize_cell(text)`. */
  function NormalizeCell(text: string): string {
    Strip(CollapseRuns(StripFootnotes(Unhidden(text)), IsSpace, ' '))
  }

  /** Whatever the text, `_normalize_cell` returns a normal cell. */
  lemma NormalizeCellIsNormal(text: string)
    ensures IsNormalCell(NormalizeCell(text))
  {
    var visible := Unhidden(text);
    NormalizeSteps(visible);
    StripNormal(CollapseRuns(StripFootnotes(visible), IsSpace, ' '));
  }

  /**
   * What `_normalize_cell` returns, said through `str.split()`: the words left once the hidden
   * characters and the footnote markers are gone, joined by single spaces.
   */
  lemma NormalizeCellWords(text: string)
    ensures NormalizeCell(text) == Join(Words(StripFootnotes(Unhidden(text))), " ")
  {
    var u := StripFootnotes(Unhidden(text));
    var c := CollapseRuns(u, IsSpace, ' ');
    NormalizeCellIsNormal(text);
    JoinWordsSpaced(Strip(c));
    WordsStrip(c);
    WordsCollapse(u);
  }

  /** The three middle steps of `_normalize_cell` establish the normal-form facts. */
  lemma NormalizeSteps(visible: string)
    requires All(visible, Visible)
    ensures var collapsed := CollapseRuns(StripFootnotes(visible), IsSpace, ' ');
            Clean(collapsed)
  {
    var unmarked := StripFootnotes(visible);
    StripFootnotesPreserves(visible, Visible);
    StripFootnotesClean(visible);
    CollapseRunsPreserves(unmarked, IsSpace, ' ', Visible);
    CollapseKeepsNoFootnote(unmarked);
    CollapseRunsSingle(unmarked, IsSpace, ' ');
  }

  /** A cell text is left unchanged by `_normalize_cell` exactly when it is already normal. */
  lemma NormalizeCellFixpoint(s: string)
    ensures NormalizeCell(s) == s <==> IsNormalCell(s)
  {
    NormalizeCellIsNormal(s);
    if IsNormalCell(s) {
      NoBreakSpaceReplaced(s);
      DeleteCharAbsent(s, SoftHyphen);
      DeleteCharAbsent(s, ZeroWidthSpace);
      StripFootnotesKeeps(s);
      CollapseRunsFixes(s, IsSpace, ' ');
      TrimKeeps(s, IsSpace);
    }
  }

  /** Normalising twice is normalising once. */
  lemma NormalizeCellIdempotent(s: string)
    ensures NormalizeCell(NormalizeCell(s)) == NormalizeCell(s)
  {
    NormalizeCellIsNormal(s);
    NormalizeCellFixpoint(NormalizeCell(s));
  }
}
