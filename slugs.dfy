/**
 * `slugify` (scripts/make_amsterdam_locations.py): the folder name made from a province
 * or municipality name.
 *
 * Unicode NFKD decomposition is a library call outside the model: `Slugify` takes the
 * already decomposed text, and `SlugifyValue` takes the decomposition as a parameter.
 */
module Slugs {
  import opened Text

  predicate NonAscii(c: char) {
    c as int >= 128
  }

  /** `s.encode("ascii", "ignore").decode("ascii")`: the non-ASCII characters are dropped. */
  function AsciiOnly(s: string): string {
    Without(s, NonAscii)
  }

  function LowerChar(c: char): char {
    if 'A' <= c <= 'Z' then (c as int + 32) as char else c
  }

  /** `s.lower()` on ASCII text: only `A`..`Z` change. */
  function LowerAscii(s: string): (r: string)
    ensures |r| == |s| && forall i :: 0 <= i < |s| ==> r[i] == LowerChar(s[i])
  {
    seq(|s|, i requires 0 <= i < |s| => LowerChar(s[i]))
  }

  predicate IsUpper(c: char) {
    'A' <= c <= 'Z'
  }

  /**
   * After `s.lower()` no capital letter is left; text without capitals is left as it is, and
   * only such text, so lowering twice is lowering once.
   */
  lemma LowerAsciiLowers(s: string)
    ensures forall i :: 0 <= i < |s| ==> !IsUpper(LowerAscii(s)[i])
    ensures LowerAscii(s) == s <==> forall i :: 0 <= i < |s| ==> !IsUpper(s[i])
    ensures LowerAscii(LowerAscii(s)) == LowerAscii(s)
  {
    var r := LowerAscii(s);
    if exists i :: 0 <= i < |s| && IsUpper(s[i]) {
      var i :| 0 <= i < |s| && IsUpper(s[i]);
      assert r[i] != s[i];
    }
    assert forall i :: 0 <= i < |r| ==> LowerAscii(r)[i] == r[i];
  }

  predicate IsSlugAlnum(c: char) {
    'a' <= c <= 'z' || '0' <= c <= '9'
  }

  /** The class `[^a-z0-9]`. */
  predicate NotSlugAlnum(c: char) {
    !IsSlugAlnum(c)
  }

  predicate IsDash(c: char) {
    c == '-'
  }

  predicate IsSlugChar(c: char) {
    IsSlugAlnum(c) || c == '-'
  }

  /** The text before the two regular-expression substitutions. */
  function Prepared(decomposed: string): string {
    ReplaceAll(LowerAscii(AsciiOnly(decomposed)), "&", " and ")
  }

  /** `slugify` applied to text that is already in NFKD form. */
  function Slugify(decomposed: string): (r: string)
    ensures r != []
  {
    var dashed := CollapseRuns(Prepared(decomposed), NotSlugAlnum, '-');
    var single := CollapseRuns(dashed, IsDash, '-');
    var trimmed := Trim(single, IsDash);
    if trimmed == [] then "item" else trimmed
  }

  /** `slugify(value)`, with `unicodedata.normalize("NFKD", _)` given as `nfkd`. */
  function SlugifyValue(value: string, nfkd: string -> string): (r: string)
    ensures IsSlug(r)
  {
    SlugifyIsSlug(nfkd(value));
    Slugify(nfkd(value))
  }

  /** A safe path component: lower-case letters, digits and single inner dashes. */
  predicate IsSlug(s: string) {
    && s != []
    && All(s, IsSlugChar)
    && s[0] != '-' && s[|s| - 1] != '-'
    && forall i :: 0 <= i < |s| - 1 ==> !(s[i] == '-' && s[i + 1] == '-')
  }

  /**
   * Reference reading of a name's slug letters, character by character: upper-case ASCII
   * letters become lower-case, lower-case ASCII letters and digits stay, `&` reads as
   * `and`, and every other character contributes nothing.
   */
  function SlugLetters(d: string): string
    decreases |d|
  {
    if d == [] then []
    else
      var c := d[0];
      var piece := if 'A' <= c <= 'Z' then [(c as int + 32) as char]
                   else if IsSlugAlnum(c) then [c]
                   else if c == '&' then "and"
                   else [];
      piece + SlugLetters(d[1..])
  }

  /** The collapsed text is made of slug characters and has no two dashes in a row. */
  lemma DashedShape(p: string)
    ensures var dashed := CollapseRuns(p, NotSlugAlnum, '-');
            && All(dashed, IsSlugChar)
            && SingleRuns(dashed, IsDash, '-')
            && CollapseRuns(dashed, IsDash, '-') == dashed
  {
    var dashed := CollapseRuns(p, NotSlugAlnum, '-');
    CollapseRunsSingle(p, NotSlugAlnum, '-');
    assert SingleRuns(dashed, IsDash, '-');
    CollapseRunsFixes(dashed, IsDash, '-');
  }

  /** Trimming the dashes off a collapsed text leaves a slug or nothing. */
  lemma TrimmedIsSlug(dashed: string)
    requires All(dashed, IsSlugChar) && SingleRuns(dashed, IsDash, '-')
    ensures var r := Trim(dashed, IsDash);
            r != [] ==> IsSlug(r)
  {
    TrimCuts(dashed, IsDash);
    SliceShape(dashed, Trim(dashed, IsDash), TrimOffset(dashed, IsDash));
  }

  /** A slice of a collapsed text is made of slug characters with no two dashes in a row. */
  lemma SliceShape(s: string, r: string, a: nat)
    requires a + |r| <= |s| && r == s[a..a + |r|]
    requires All(s, IsSlugChar) && SingleRuns(s, IsDash, '-')
    ensures All(r, IsSlugChar)
    ensures forall i :: 0 <= i < |r| - 1 ==> !(r[i] == '-' && r[i + 1] == '-')
  {
    forall i | 0 <= i < |r|
      ensures IsSlugChar(r[i])
    {
      assert r[i] == s[a + i];
    }
    forall i | 0 <= i < |r| - 1
      ensures !(r[i] == '-' && r[i + 1] == '-')
    {
      assert r[i] == s[a + i] && r[i + 1] == s[a + i + 1];
      assert !(IsDash(s[a + i]) && IsDash(s[a + i + 1]));
    }
  }

  lemma ItemIsSlug()
    ensures IsSlug("item")
  {
    assert "item"[0] == 'i' && "item"[3] == 'm';
    assert All("item", IsSlugChar);
  }

  lemma SlugifyIsSlug(d: string)
    ensures IsSlug(Slugify(d))
  {
    DashedShape(Prepared(d));
    TrimmedIsSlug(CollapseRuns(Prepared(d), NotSlugAlnum, '-'));
    ItemIsSlug();
  }

  /** How one character of the decomposed text appears in `Prepared`. */
  function Piece(c: char): string {
    if NonAscii(c) then [] else if c == '&' then " and " else [LowerChar(c)]
  }

  lemma ReplaceAmpCons(x: char, t: string)
    ensures ReplaceAll([x] + t, "&", " and ") == (if x == '&' then " and " else [x]) + ReplaceAll(t, "&", " and ")
  {
    var s := [x] + t;
    assert s[1..] == t;
    if x == '&' {
      assert "&" <= s;
    } else {
      assert s[0] != "&"[0];
    }
  }

  lemma PreparedCons(d: string)
    requires d != []
    ensures Prepared(d) == Piece(d[0]) + Prepared(d[1..])
  {
    var rest := AsciiOnly(d[1..]);
    if NonAscii(d[0]) {
      assert AsciiOnly(d) == rest;
    } else {
      assert AsciiOnly(d) == [d[0]] + rest;
      assert LowerAscii([d[0]] + rest) == [LowerChar(d[0])] + LowerAscii(rest);
      ReplaceAmpCons(LowerChar(d[0]), LowerAscii(rest));
    }
  }

  lemma {:induction false} PreparedLetters(d: string)
    ensures Without(Prepared(d), NotSlugAlnum) == SlugLetters(d)
    decreases |d|
  {
    if d == [] {
      assert Prepared(d) == [];
    } else {
      PreparedCons(d);
      PreparedLetters(d[1..]);
      WithoutAppend(Piece(d[0]), Prepared(d[1..]), NotSlugAlnum);
      if !NonAscii(d[0]) && d[0] == '&' {
        assert Without(" and ", NotSlugAlnum) == "and" by {
          assert " and "[1..] == "and ";
          assert "and "[1..] == "nd ";
          assert "nd "[1..] == "d ";
          assert "d "[1..] == " ";
          assert " "[1..] == "";
        }
      }
    }
  }

  /**
   * The slug keeps exactly the reference letters, in order, with dashes between them;
   * a name without any becomes `item`.
   */
  lemma SlugifyLetters(d: string)
    ensures SlugLetters(d) == [] ==> Slugify(d) == "item"
    ensures SlugLetters(d) != [] ==> Without(Slugify(d), IsDash) == SlugLetters(d)
  {
    var dashed := CollapseRuns(Prepared(d), NotSlugAlnum, '-');
    DashedShape(Prepared(d));
    var r := Trim(dashed, IsDash);
    TrimWithout(dashed, IsDash);
    WithoutSame(dashed, IsDash, NotSlugAlnum);
    CollapseRunsKeeps(Prepared(d), NotSlugAlnum, '-');
    PreparedLetters(d);
    assert Without(r, IsDash) == SlugLetters(d);
    if r != [] {
      assert Without(r, IsDash)[0] == r[0];
    }
  }

  lemma {:induction false} ContainsSingle(s: string, c: char)
    requires Contains(s, [c])
    ensures c in s
    decreases |s|
  {
    if [c] <= s {
      assert s[0] == [c][0];
    } else {
      ContainsSingle(s[1..], c);
      assert s == [s[0]] + s[1..];
    }
  }

  /** Text that is already a slug when prepared comes out of the substitutions unchanged. */
  lemma PreparedSlugStays(d: string)
    requires IsSlug(Prepared(d))
    ensures Slugify(d) == Prepared(d)
  {
    var s := Prepared(d);
    assert SingleRuns(s, NotSlugAlnum, '-');
    CollapseRunsFixes(s, NotSlugAlnum, '-');
    assert SingleRuns(s, IsDash, '-');
    CollapseRunsFixes(s, IsDash, '-');
    TrimKeeps(s, IsDash);
  }

  /** For ASCII text without `&`, preparing only lowers the capitals. */
  lemma PreparedLowers(d: string)
    requires forall i :: 0 <= i < |d| ==> !NonAscii(d[i]) && d[i] != '&'
    ensures Prepared(d) == LowerAscii(d)
  {
    WithoutNone(d, NonAscii);
    var s := LowerAscii(d);
    if Contains(s, "&") {
      ContainsSingle(s, '&');
    }
  }

  /** A slug is its own slug. */
  lemma SlugifyKeepsSlug(s: string)
    requires IsSlug(s)
    ensures Slugify(s) == s
  {
    PreparedLowers(s);
    assert LowerAscii(s) == s;
    PreparedSlugStays(s);
  }

  predicate IsAsciiAlnum(c: char) {
    'A' <= c <= 'Z' || 'a' <= c <= 'z' || '0' <= c <= '9'
  }

  /** A name made only of ASCII letters and digits becomes its lower-case form. */
  lemma AlnumNameSlug(d: string)
    requires d != [] && All(d, IsAsciiAlnum)
    ensures Slugify(d) == LowerAscii(d)
  {
    PreparedLowers(d);
    assert All(LowerAscii(d), IsSlugAlnum);
    PreparedSlugStays(d);
  }

  lemma SlugifyIdempotent(d: string)
    ensures Slugify(Slugify(d)) == Slugify(d)
  {
    SlugifyIsSlug(d);
    SlugifyKeepsSlug(Slugify(d));
  }
}
