/**
 * Character-level counterparts of the Python string operations the exporter uses:
 * `str.isspace`, `str.strip`, runs of a character class replaced by one character
 * (`re.sub(r"X+", c, s)`), `str.replace`, the `in` substring test, `str.split()`,
 * `"".join` and the code-point order of `<` on strings.
 */
module Text {

  /** Python's `str.isspace` (and hence `\s` in a `str` regex and the default of `strip`). */
  predicate IsSpace(c: char) {
    var n := c as int;
    n == 0x20 || 0x09 <= n <= 0x0D || 0x1C <= n <= 0x1F || n == 0x85 || n == 0xA0
    || n == 0x1680 || 0x2000 <= n <= 0x200A || n == 0x2028 || n == 0x2029
    || n == 0x202F || n == 0x205F || n == 0x3000
  }

  /** Every character of `s` satisfies `q`. */
  predicate All(s: string, q: char -> bool) {
    forall i :: 0 <= i < |s| ==> q(s[i])
  }

  /** The characters of `s` for which `p` does not hold, in order. */
  function Without(s: string, p: char -> bool): (r: string)
    ensures forall i :: 0 <= i < |r| ==> !p(r[i])
    decreases |s|
  {
    if s == [] then [] else (if p(s[0]) then [] else [s[0]]) + Without(s[1..], p)
  }

  lemma {:induction false} WithoutAppend(s: string, t: string, p: char -> bool)
    ensures Without(s + t, p) == Without(s, p) + Without(t, p)
    decreases |s|
  {
    if s == [] {
      assert s + t == t;
    } else {
      assert (s + t)[1..] == s[1..] + t;
      WithoutAppend(s[1..], t, p);
    }
  }

  lemma {:induction false} WithoutAll(s: string, p: char -> bool)
    requires forall i :: 0 <= i < |s| ==> p(s[i])
    ensures Without(s, p) == []
    decreases |s|
  {
    if s != [] {
      WithoutAll(s[1..], p);
    }
  }

  lemma {:induction false} WithoutNone(s: string, p: char -> bool)
    requires forall i :: 0 <= i < |s| ==> !p(s[i])
    ensures Without(s, p) == s
    decreases |s|
  {
    if s != [] {
      WithoutNone(s[1..], p);
    }
  }

  /** Two classes that agree on the characters of `s` remove the same characters. */
  lemma {:induction false} WithoutSame(s: string, p: char -> bool, q: char -> bool)
    requires forall i :: 0 <= i < |s| ==> (p(s[i]) <==> q(s[i]))
    ensures Without(s, p) == Without(s, q)
    decreases |s|
  {
    if s != [] {
      WithoutSame(s[1..], p, q);
    }
  }

  /** `s` without its leading characters that satisfy `p` (`lstrip`). */
  function TrimStart(s: string, p: char -> bool): (r: string)
    ensures |r| <= |s| && r == s[|s| - |r|..]
    ensures forall i :: 0 <= i < |s| - |r| ==> p(s[i])
    ensures r != [] ==> !p(r[0])
    decreases |s|
  {
    if s != [] && p(s[0]) then TrimStart(s[1..], p) else s
  }

  /** `s` without its trailing characters that satisfy `p` (`rstrip`). */
  function TrimEnd(s: string, p: char -> bool): (r: string)
    ensures |r| <= |s| && r == s[..|r|]
    ensures forall i :: |r| <= i < |s| ==> p(s[i])
    ensures r != [] ==> !p(r[|r| - 1])
    decreases |s|
  {
    if s != [] && p(s[|s| - 1]) then TrimEnd(s[..|s| - 1], p) else s
  }

  /** `s` without the leading and trailing characters that satisfy `p` (`strip`). */
  function Trim(s: string, p: char -> bool): string {
    TrimEnd(TrimStart(s, p), p)
  }

  /**
   * `strip` removes exactly a leading and a trailing run of characters satisfying `p`:
   * what is left is a slice of `s` that neither starts nor ends with such a character.
   */
  lemma TrimCuts(s: string, p: char -> bool)
    ensures var r := Trim(s, p);
            && (r != [] ==> !p(r[0]) && !p(r[|r| - 1]))
            && TrimOffset(s, p) + |r| <= |s| && r == s[TrimOffset(s, p)..TrimOffset(s, p) + |r|]
            && (forall i :: 0 <= i < TrimOffset(s, p) ==> p(s[i]))
            && (forall i :: TrimOffset(s, p) + |r| <= i < |s| ==> p(s[i]))
  {
    var t := TrimStart(s, p);
    PrefixOfSuffix(s, |s| - |t|, t, TrimEnd(t, p), p);
  }

  /** A prefix `r` of the suffix `t == s[a..]`, where `p` holds past `r` in `t`. */
  lemma PrefixOfSuffix(s: string, a: nat, t: string, r: string, p: char -> bool)
    requires a <= |s| && t == s[a..] && |r| <= |t| && r == t[..|r|]
    requires forall i :: |r| <= i < |t| ==> p(t[i])
    ensures r == s[a..a + |r|]
    ensures r != [] ==> r[0] == t[0]
    ensures forall i :: a + |r| <= i < |s| ==> p(s[i])
  {
    forall i | a + |r| <= i < |s|
      ensures p(s[i])
    {
      assert s[i] == t[i - a];
    }
  }

  /** How many leading characters `Trim` removes. */
  function TrimOffset(s: string, p: char -> bool): nat {
    |s| - |TrimStart(s, p)|
  }

  lemma TrimKeeps(s: string, p: char -> bool)
    requires s == [] || (!p(s[0]) && !p(s[|s| - 1]))
    ensures Trim(s, p) == s
  {
  }

  lemma TrimStartWithout(s: string, p: char -> bool)
    ensures Without(TrimStart(s, p), p) == Without(s, p)
  {
    var r := TrimStart(s, p);
    var front := s[..|s| - |r|];
    assert s == front + r;
    WithoutAll(front, p);
    WithoutAppend(front, r, p);
  }

  lemma TrimEndWithout(s: string, p: char -> bool)
    ensures Without(TrimEnd(s, p), p) == Without(s, p)
  {
    var r := TrimEnd(s, p);
    var back := s[|r|..];
    assert s == r + back;
    WithoutAll(back, p);
    WithoutAppend(r, back, p);
  }

  /** Trimming removes only characters of the trimmed class. */
  lemma TrimWithout(s: string, p: char -> bool)
    ensures Without(Trim(s, p), p) == Without(s, p)
  {
    TrimStartWithout(s, p);
    TrimEndWithout(TrimStart(s, p), p);
  }

  /** Python's `s.strip()`. */
  function Strip(s: string): string {
    Trim(s, IsSpace)
  }

  /**
   * `re.sub("X+", rep, s)` where `inRun` is the class X and `rep` belongs to it:
   * every maximal run of class characters becomes a single `rep`.
   */
  function CollapseRuns(s: string, inRun: char -> bool, rep: char): (r: string)
    requires inRun(rep)
    ensures r == [] <==> s == []
    ensures (r != [] && inRun(r[0])) <==> (s != [] && inRun(s[0]))
    decreases |s|
  {
    if s == [] then []
    else if inRun(s[0]) then [rep] + CollapseRuns(TrimStart(s[1..], inRun), inRun, rep)
    else [s[0]] + CollapseRuns(s[1..], inRun, rep)
  }

  /** Every class character of `r` is `rep`, and no two class characters are adjacent. */
  predicate SingleRuns(r: string, inRun: char -> bool, rep: char) {
    && (forall i :: 0 <= i < |r| && inRun(r[i]) ==> r[i] == rep)
    && (forall i :: 0 <= i < |r| - 1 ==> !(inRun(r[i]) && inRun(r[i + 1])))
  }

  /** After collapsing, runs are single `rep` characters. */
  lemma {:induction false} CollapseRunsSingle(s: string, inRun: char -> bool, rep: char)
    requires inRun(rep)
    ensures SingleRuns(CollapseRuns(s, inRun, rep), inRun, rep)
    decreases |s|
  {
    if s != [] {
      var r := CollapseRuns(s, inRun, rep);
      var t := if inRun(s[0]) then TrimStart(s[1..], inRun) else s[1..];
      var c := CollapseRuns(t, inRun, rep);
      CollapseRunsSingle(t, inRun, rep);
      var head := if inRun(s[0]) then rep else s[0];
      assert r == [head] + c;
      SingleRunsCons(head, c, inRun, rep);
    }
  }

  /** A head character keeps single runs when it is `rep` before a non-class character, or not a class character. */
  lemma SingleRunsCons(head: char, c: string, inRun: char -> bool, rep: char)
    requires SingleRuns(c, inRun, rep)
    requires inRun(head) ==> head == rep && (c == [] || !inRun(c[0]))
    ensures SingleRuns([head] + c, inRun, rep)
  {
    var r := [head] + c;
    forall i | 0 <= i < |r| && inRun(r[i])
      ensures r[i] == rep
    {
      if i > 0 {
        assert r[i] == c[i - 1];
      }
    }
    forall i | 0 <= i < |r| - 1
      ensures !(inRun(r[i]) && inRun(r[i + 1]))
    {
      if i > 0 {
        assert r[i] == c[i - 1] && r[i + 1] == c[i];
      }
    }
  }

  /** Collapsing introduces no character other than `rep`: a property of every character is kept. */
  lemma {:induction false} CollapseRunsPreserves(s: string, inRun: char -> bool, rep: char, q: char -> bool)
    requires inRun(rep) && q(rep) && All(s, q)
    ensures All(CollapseRuns(s, inRun, rep), q)
    decreases |s|
  {
    if s != [] {
      var r := CollapseRuns(s, inRun, rep);
      var t := if inRun(s[0]) then TrimStart(s[1..], inRun) else s[1..];
      assert forall i :: 0 <= i < |t| ==> t[i] == s[|s| - |t| + i];
      CollapseRunsPreserves(t, inRun, rep, q);
      assert r == [r[0]] + CollapseRuns(t, inRun, rep);
    }
  }

  /** Collapsing keeps the characters outside the class, in order. */
  lemma {:induction false} CollapseRunsKeeps(s: string, inRun: char -> bool, rep: char)
    requires inRun(rep)
    ensures Without(CollapseRuns(s, inRun, rep), inRun) == Without(s, inRun)
    decreases |s|
  {
    if s != [] {
      var r := CollapseRuns(s, inRun, rep);
      if inRun(s[0]) {
        var t := TrimStart(s[1..], inRun);
        var dropped := s[1..][..|s| - 1 - |t|];
        WithoutAll(dropped, inRun);
        assert s[1..] == dropped + t;
        WithoutAppend(dropped, t, inRun);
        CollapseRunsKeeps(t, inRun, rep);
        assert r[1..] == CollapseRuns(t, inRun, rep);
      } else {
        CollapseRunsKeeps(s[1..], inRun, rep);
        assert r[1..] == CollapseRuns(s[1..], inRun, rep);
      }
    }
  }

  /** A string whose runs are already single `rep` characters is left unchanged. */
  lemma {:induction false} CollapseRunsFixes(s: string, inRun: char -> bool, rep: char)
    requires inRun(rep) && SingleRuns(s, inRun, rep)
    ensures CollapseRuns(s, inRun, rep) == s
    decreases |s|
  {
    if s != [] {
      var tail := s[1..];
      SingleRunsTail(s, inRun, rep);
      if inRun(s[0]) {
        assert TrimStart(tail, inRun) == tail;
      }
      CollapseRunsFixes(tail, inRun, rep);
      assert s == [s[0]] + tail;
    }
  }

  /** Dropping the first character keeps runs single; a class character there stands alone. */
  lemma SingleRunsTail(s: string, inRun: char -> bool, rep: char)
    requires s != [] && SingleRuns(s, inRun, rep)
    ensures SingleRuns(s[1..], inRun, rep)
    ensures inRun(s[0]) ==> s[0] == rep && (|s| == 1 || !inRun(s[1]))
  {
    assert forall i :: 0 <= i < |s[1..]| ==> s[1..][i] == s[i + 1];
  }

  /** The substring test `sub in s`. */
  predicate Contains(s: string, sub: string)
    decreases |s|
  {
    if sub <= s then true else if s == [] then false else Contains(s[1..], sub)
  }

  lemma {:induction false} ContainsAt(s: string, sub: string, i: nat)
    requires i + |sub| <= |s| && s[i..i + |sub|] == sub
    ensures Contains(s, sub)
    decreases i
  {
    if i > 0 && !(sub <= s) {
      assert s[1..][i - 1..i - 1 + |sub|] == sub;
      ContainsAt(s[1..], sub, i - 1);
    }
  }

  /**
   * Python's `s.replace(pat, rep)`: every non-overlapping occurrence of `pat`, scanning
   * from the left, is replaced by `rep`.
   */
  function ReplaceAll(s: string, pat: string, rep: string): (r: string)
    requires pat != []
    ensures !Contains(s, pat) ==> r == s
    decreases |s|
  {
    if s == [] then []
    else if pat <= s then rep + ReplaceAll(s[|pat|..], pat, rep)
    else [s[0]] + ReplaceAll(s[1..], pat, rep)
  }

  /** Replacing a single character by text without it leaves none of it. */
  lemma {:induction false} ReplaceCharGone(s: string, c: char, rep: string)
    requires c !in rep
    ensures c !in ReplaceAll(s, [c], rep)
    decreases |s|
  {
    if s != [] {
      if [c] <= s {
        ReplaceCharGone(s[|[c]|..], c, rep);
      } else {
        ReplaceCharGone(s[1..], c, rep);
      }
    }
  }

  /** The longest prefix of `s` that has no character satisfying `p`. */
  function TakeUntil(s: string, p: char -> bool): (r: string)
    ensures r <= s
    ensures forall i :: 0 <= i < |r| ==> !p(r[i])
    ensures |r| < |s| ==> p(s[|r|])
    decreases |s|
  {
    if s == [] || p(s[0]) then [] else [s[0]] + TakeUntil(s[1..], p)
  }

  /** Python's `s.split()`: the maximal non-empty runs of non-whitespace characters. */
  function Words(s: string): seq<string>
    decreases |s|
  {
    var t := TrimStart(s, IsSpace);
    if t == [] then []
    else
      var w := TakeUntil(t, IsSpace);
      [w] + Words(t[|w|..])
  }

  /** Leading characters of the class are skipped by `TrimStart`. */
  lemma {:induction false} TrimStartSkips(a: string, s: string, p: char -> bool)
    requires All(a, p)
    ensures TrimStart(a + s, p) == TrimStart(s, p)
    decreases |a|
  {
    if a == [] {
      assert a + s == s;
    } else {
      assert (a + s)[1..] == a[1..] + s;
      TrimStartSkips(a[1..], s, p);
    }
  }

  /** A run without class characters, followed by nothing or by a class character, is what `TakeUntil` takes. */
  lemma {:induction false} TakeUntilWord(w: string, s: string, p: char -> bool)
    requires forall i :: 0 <= i < |w| ==> !p(w[i])
    requires s == [] || p(s[0])
    ensures TakeUntil(w + s, p) == w
    decreases |w|
  {
    if w == [] {
      assert w + s == s;
    } else {
      assert (w + s)[1..] == w[1..] + s;
      TakeUntilWord(w[1..], s, p);
    }
  }

  /** A run without class characters in front is copied unchanged by the run substitution. */
  lemma {:induction false} CollapseRunsAfterWord(w: string, s: string, inRun: char -> bool, rep: char)
    requires inRun(rep) && forall i :: 0 <= i < |w| ==> !inRun(w[i])
    ensures CollapseRuns(w + s, inRun, rep) == w + CollapseRuns(s, inRun, rep)
    decreases |w|
  {
    if w == [] {
      assert w + s == s;
    } else {
      assert (w + s)[1..] == w[1..] + s;
      CollapseRunsAfterWord(w[1..], s, inRun, rep);
      assert w + CollapseRuns(s, inRun, rep) == [w[0]] + (w[1..] + CollapseRuns(s, inRun, rep));
    }
  }

  lemma {:induction false} HeadTail(s: string)
    requires s != []
    ensures s == [s[0]] + s[1..]
  {
  }

  lemma {:induction false} PrefixRest(t: string, r: string)
    requires |r| <= |t| && r == t[..|r|]
    ensures t == r + t[|r|..]
  {
  }

  /** `Without` drops every character satisfying `p` and keeps every other one as often as it occurs. */
  lemma {:induction false} WithoutCounts(s: string, p: char -> bool)
    ensures forall x :: multiset(Without(s, p))[x] == if p(x) then 0 else multiset(s)[x]
    decreases |s|
  {
    if s != [] {
      WithoutCounts(s[1..], p);
      assert s == [s[0]] + s[1..];
    }
  }

  /** Changing only characters of the class, into characters of the class, keeps the rest. */
  lemma {:induction false} WithoutReplaced(s: string, r: string, p: char -> bool)
    requires |r| == |s| && forall i :: 0 <= i < |s| ==> s[i] == r[i] || (p(s[i]) && p(r[i]))
    ensures Without(r, p) == Without(s, p)
    decreases |s|
  {
    if s != [] {
      WithoutReplaced(s[1..], r[1..], p);
    }
  }

  /** Python's `"".join(parts)`. */
  function Concat(parts: seq<string>): string
    decreases |parts|
  {
    if parts == [] then [] else parts[0] + Concat(parts[1..])
  }

  /** Python's `sep.join(parts)`. */
  function Join(parts: seq<string>, sep: string): string
    decreases |parts|
  {
    if parts == [] then [] else if |parts| == 1 then parts[0] else parts[0] + sep + Join(parts[1..], sep)
  }

  /** Python's `a <= b` on strings: lexicographic order by code point. */
  predicate LexLe(a: string, b: string)
    decreases |a|
  {
    a == [] || (b != [] && (a[0] < b[0] || (a[0] == b[0] && LexLe(a[1..], b[1..]))))
  }

  lemma {:induction false} LexLeTotal(a: string, b: string)
    ensures LexLe(a, b) || LexLe(b, a)
    decreases |a|
  {
    if a != [] && b != [] && a[0] == b[0] {
      LexLeTotal(a[1..], b[1..]);
    }
  }

  lemma {:induction false} LexLeTransitive(a: string, b: string, c: string)
    requires LexLe(a, b) && LexLe(b, c)
    ensures LexLe(a, c)
    decreases |a|
  {
    if a != [] && a[0] == b[0] && b[0] == c[0] {
      LexLeTransitive(a[1..], b[1..], c[1..]);
    }
  }

  lemma {:induction false} LexLeAntisymmetric(a: string, b: string)
    requires LexLe(a, b) && LexLe(b, a)
    ensures a == b
    decreases |a|
  {
    if a != [] {
      LexLeAntisymmetric(a[1..], b[1..]);
    }
  }
}
