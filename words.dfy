/**
 * What Python's `str.split()` sees: the words of a text are unchanged by collapsing its
 * whitespace runs and by stripping it, and text with single spaces between words and none
 * at the ends is `" ".join` of its own words.
 */
module WordSplit {
  import opened Text

  /** Whitespace in front of the text does not change its words. */
  lemma {:induction false} WordsSpaces(a: string, s: string)
    requires All(a, IsSpace)
    ensures Words(a + s) == Words(s)
  {
    TrimStartSkips(a, s, IsSpace);
  }

  /** A word followed by nothing or by whitespace is the first word. */
  lemma {:induction false} WordsWord(w: string, s: string)
    requires w != [] && forall i :: 0 <= i < |w| ==> !IsSpace(w[i])
    requires s == [] || IsSpace(s[0])
    ensures Words(w + s) == [w] + Words(s)
  {
    assert TrimStart(w + s, IsSpace) == w + s;
    TakeUntilWord(w, s, IsSpace);
    assert (w + s)[|w|..] == s;
  }

  lemma {:induction false} WordsTrimmed(s: string)
    ensures Words(TrimStart(s, IsSpace)) == Words(s)
  {
    var t := TrimStart(s, IsSpace);
    assert TrimStart(t, IsSpace) == t;
  }

  /** Text that starts with a non-space character is its first word, then nothing or whitespace. */
  lemma {:induction false} FirstWord(s: string)
    requires s != [] && !IsSpace(s[0])
    ensures var w := TakeUntil(s, IsSpace);
            && w != [] && (forall i :: 0 <= i < |w| ==> !IsSpace(w[i]))
            && s == w + s[|w|..]
            && (s[|w|..] == [] || IsSpace(s[|w|..][0]))
  {
    PrefixRest(s, TakeUntil(s, IsSpace));
  }

  /** `re.sub(r"\s+", " ", s).split() == s.split()`: collapsing whitespace keeps the words. */
  lemma {:induction false} WordsCollapse(s: string)
    ensures Words(CollapseRuns(s, IsSpace, ' ')) == Words(s)
    decreases |s|
  {
    if s == [] {
    } else if IsSpace(s[0]) {
      var t := TrimStart(s[1..], IsSpace);
      WordsCollapse(t);
      CollapseSpaceHead(s);
      CollapseSpaceStep(s, CollapseRuns(s, IsSpace, ' '), CollapseRuns(t, IsSpace, ' '));
    } else {
      FirstWord(s);
      var w := TakeUntil(s, IsSpace);
      WordsCollapse(s[|w|..]);
      CollapseWordStep(w, s[|w|..]);
    }
  }

  lemma {:induction false} CollapseSpaceStep(s: string, cs: string, ct: string)
    requires s != [] && IsSpace(s[0])
    requires cs == [' '] + ct && Words(ct) == Words(TrimStart(s[1..], IsSpace))
    ensures Words(cs) == Words(s)
  {
    WordsSpaces([' '], ct);
    WordsAfterSpace(s);
  }

  /** Text that starts with whitespace has the words of what follows the leading run. */
  lemma {:induction false} WordsAfterSpace(s: string)
    requires s != [] && IsSpace(s[0])
    ensures Words(s) == Words(TrimStart(s[1..], IsSpace))
  {
    WordsTrimmed(s[1..]);
    HeadTail(s);
    WordsSpaces([s[0]], s[1..]);
  }

  lemma {:induction false} CollapseWordStep(w: string, rest: string)
    requires w != [] && forall i :: 0 <= i < |w| ==> !IsSpace(w[i])
    requires rest == [] || IsSpace(rest[0])
    requires Words(CollapseRuns(rest, IsSpace, ' ')) == Words(rest)
    ensures Words(CollapseRuns(w + rest, IsSpace, ' ')) == Words(w + rest)
  {
    CollapseRunsAfterWord(w, rest, IsSpace, ' ');
    WordsWord(w, CollapseRuns(rest, IsSpace, ' '));
    WordsWord(w, rest);
  }

  /** Whitespace at the end does not change the words. */
  lemma {:induction false} WordsTrailing(x: string, b: string)
    requires All(b, IsSpace)
    ensures Words(x + b) == Words(x)
    decreases |x|
  {
    if x == [] {
      assert x + b == b + [];
      TrimStartSkips(b, [], IsSpace);
    } else if IsSpace(x[0]) {
      HeadTail(x);
      assert x + b == [x[0]] + (x[1..] + b);
      WordsSpaces([x[0]], x[1..] + b);
      WordsTrailing(x[1..], b);
      WordsSpaces([x[0]], x[1..]);
    } else {
      FirstWord(x);
      var w := TakeUntil(x, IsSpace);
      var rest := x[|w|..];
      assert x + b == w + (rest + b);
      assert rest + b == [] || IsSpace((rest + b)[0]);
      WordsWord(w, rest + b);
      WordsTrailing(rest, b);
      WordsWord(w, rest);
    }
  }

  /** `s.strip().split() == s.split()`. */
  lemma {:induction false} WordsStrip(s: string)
    ensures Words(Strip(s)) == Words(s)
  {
    var t := TrimStart(s, IsSpace);
    WordsTrimmed(s);
    WordsTrimEnd(t);
  }

  lemma {:induction false} WordsTrimEnd(t: string)
    ensures Words(TrimEnd(t, IsSpace)) == Words(t)
  {
    var r := TrimEnd(t, IsSpace);
    PrefixRest(t, r);
    assert All(t[|r|..], IsSpace);
    WordsTrailing(r, t[|r|..]);
  }

  /** Single plain spaces between words and no whitespace at either end. */
  predicate Spaced(n: string) {
    && (n == [] || (!IsSpace(n[0]) && !IsSpace(n[|n| - 1])))
    && SingleRuns(n, IsSpace, ' ')
  }

  /** `" ".join(n.split()) == n` exactly for text with single spaces between words and none at the ends. */
  lemma {:induction false} JoinWordsSpaced(n: string)
    requires Spaced(n)
    ensures Join(Words(n), " ") == n
    decreases |n|
  {
    if n != [] {
      FirstWord(n);
      var w := TakeUntil(n, IsSpace);
      var rest := n[|w|..];
      if rest == [] {
        WordsWord(w, rest);
        assert n == w;
      } else {
        SpacedRest(n, w, rest);
        JoinWordsSpaced(rest[1..]);
        JoinStep(w, rest[1..]);
        assert n == w + ([' '] + rest[1..]);
      }
    }
  }

  /** After the first word of spaced text come a single space and spaced text again. */
  lemma {:induction false} SpacedRest(n: string, w: string, rest: string)
    requires Spaced(n) && n == w + rest && w != [] && rest != [] && IsSpace(rest[0])
    ensures |rest| >= 2 && rest == [' '] + rest[1..] && !IsSpace(rest[1]) && Spaced(rest[1..])
  {
    var m := rest[1..];
    assert rest[0] == n[|w|];
    assert rest[|rest| - 1] == n[|n| - 1];
    assert |rest| >= 2;
    assert rest[1] == n[|w| + 1];
    forall i | 0 <= i < |m|
      ensures m[i] == n[|w| + 1 + i]
    {
    }
  }

  lemma {:induction false} JoinStep(w: string, m: string)
    requires w != [] && forall i :: 0 <= i < |w| ==> !IsSpace(w[i])
    requires m != [] && !IsSpace(m[0]) && Join(Words(m), " ") == m
    ensures Join(Words(w + ([' '] + m)), " ") == w + ([' '] + m)
  {
    WordsAfterWord(w, m);
    WordsNonEmpty(m);
    JoinCons(w, Words(m), " ");
    Assoc(w, " ", m);
  }

  lemma Assoc(a: string, b: string, c: string)
    ensures a + b + c == a + (b + c)
  {
  }

  /** A whitespace run at the front becomes a single space. */
  lemma CollapseSpaceHead(s: string)
    requires s != [] && IsSpace(s[0])
    ensures CollapseRuns(s, IsSpace, ' ') == [' '] + CollapseRuns(TrimStart(s[1..], IsSpace), IsSpace, ' ')
  {
  }

  /** A word, a space and further text: the word, then the words of the text. */
  lemma {:induction false} WordsAfterWord(w: string, m: string)
    requires w != [] && forall i :: 0 <= i < |w| ==> !IsSpace(w[i])
    ensures Words(w + ([' '] + m)) == [w] + Words(m)
  {
    WordsWord(w, [' '] + m);
    WordsSpaces([' '], m);
  }

  lemma {:induction false} WordsNonEmpty(m: string)
    requires m != [] && !IsSpace(m[0])
    ensures Words(m) != []
  {
    assert TrimStart(m, IsSpace) == m;
  }

  lemma {:induction false} JoinCons(w: string, ws: seq<string>, sep: string)
    requires ws != []
    ensures Join([w] + ws, sep) == w + sep + Join(ws, sep)
  {
    assert ([w] + ws)[1..] == ws;
  }
}
