/**
 * The Python string operations the weather card relies on, over `string`
 * (a sequence of Unicode scalar values, like a Python `str`):
 * `in`, `str.split` on a one-character separator, `sep.join` and
 * `str.replace` with its default count (every occurrence).
 */
module Text {

  /** `s.startswith(p)`. */
  predicate StartsWith(s: string, p: string)
  {
    |p| <= |s| && s[..|p|] == p
  }

  /** A character missing from a string is missing from its prefixes. */
  lemma PrefixLacks(s: string, p: string, c: char)
    requires StartsWith(s, p) && c !in s
    ensures c !in p
  {
    forall i | 0 <= i < |p| ensures p[i] != c {
      assert p[i] == s[i];
    }
  }

  /** The characters of a prefix are those at the start of the string. */
  lemma StartsWithAt(s: string, p: string, i: nat)
    requires StartsWith(s, p) && i < |p|
    ensures s[i] == p[i]
  {
    assert s[..|p|][i] == s[i];
  }

  /** `p in s`: `p` occurs at some position of `s`. */
  predicate Contains(s: string, p: string)
    decreases |s|
  {
    StartsWith(s, p) || (|s| > 0 && Contains(s[1..], p))
  }

  /** An occurrence in a suffix of `s` is an occurrence in `s`. */
  lemma {:induction false} ContainsSuffix(s: string, p: string, k: nat)
    requires k <= |s|
    requires Contains(s[k..], p)
    ensures Contains(s, p)
  {
    if k > 0 {
      assert s[1..][k - 1..] == s[k..];
      ContainsSuffix(s[1..], p, k - 1);
    }
  }

  /** Every character of a substring is a character of the string. */
  lemma {:induction false} ContainedChars(s: string, p: string, c: char)
    requires Contains(s, p)
    requires c in p
    ensures c in s
  {
    if StartsWith(s, p) {
      assert c in s[..|p|];
    } else {
      ContainedChars(s[1..], p, c);
    }
  }

  /** A string holding a character that `s` lacks does not occur in `s`. */
  lemma ForeignChar(s: string, p: string, c: char)
    requires c in p && c !in s
    ensures !Contains(s, p)
  {
    if Contains(s, p) {
      ContainedChars(s, p, c);
    }
  }

  /**
   * An occurrence of `q` in `v + w` that cannot start inside `v`, because
   * `v` lacks the first character of `q`, is an occurrence in `w`.
   */
  lemma {:induction false} SkipForeignPrefix(v: string, w: string, q: string)
    requires |q| > 0 && q[0] !in v
    requires Contains(v + w, q)
    ensures Contains(w, q)
  {
    if v == [] {
      assert v + w == w;
    } else {
      assert (v + w)[0] == v[0];
      assert !StartsWith(v + w, q);
      assert (v + w)[1..] == v[1..] + w;
      SkipForeignPrefix(v[1..], w, q);
    }
  }

  // ---------------------------------------------------------------------
  // str.split and str.join

  /** `s.count(c)` for a single character `c`. */
  function Count(s: string, c: char): nat
    decreases |s|
  {
    if s == [] then 0 else (if s[0] == c then 1 else 0) + Count(s[1..], c)
  }

  /** `s.split(sep)` for a one-character separator: one piece more than separators. */
  function Split(s: string, sep: char): (parts: seq<string>)
    ensures |parts| == 1 + Count(s, sep)
    decreases |s|
  {
    if s == [] then [""]
    else
      var rest := Split(s[1..], sep);
      if s[0] == sep then [""] + rest
      else [[s[0]] + rest[0]] + rest[1..]
  }

  /** `sep.join(parts)`. */
  function Join(parts: seq<string>, sep: char): string
    decreases |parts|
  {
    if parts == [] then ""
    else if |parts| == 1 then parts[0]
    else parts[0] + [sep] + Join(parts[1..], sep)
  }

  /** Joining the pieces of a split with the same separator gives back the string. */
  lemma {:induction false} SplitJoin(s: string, sep: char)
    ensures Join(Split(s, sep), sep) == s
  {
    if s != [] {
      var rest := Split(s[1..], sep);
      SplitJoin(s[1..], sep);
      if s[0] == sep {
        assert s == [sep] + s[1..];
      } else {
        assert s == [s[0]] + s[1..];
        if |rest| > 1 {
          assert Join(rest, sep) == rest[0] + [sep] + Join(rest[1..], sep);
          assert ([[s[0]] + rest[0]] + rest[1..])[1..] == rest[1..];
        }
      }
    }
  }

  /** No piece of a split contains the separator. */
  lemma {:induction false} SplitPiecesFree(s: string, sep: char)
    ensures forall i | 0 <= i < |Split(s, sep)| :: sep !in Split(s, sep)[i]
  {
    if s != [] {
      SplitPiecesFree(s[1..], sep);
    }
  }

  /** The split has two or more pieces exactly when the separator occurs. */
  lemma {:induction false} SplitCount(s: string, sep: char)
    ensures |Split(s, sep)| >= 2 <==> sep in s
  {
    if s != [] {
      SplitCount(s[1..], sep);
      assert s == [s[0]] + s[1..];
    }
  }

  /**
   * The longest prefix of `s` holding no character of `stops`: it is a
   * prefix, it has no stop character, and it ends where `s` ends or just
   * before a stop character.
   */
  function BeforeFirst(s: string, stops: set<char>): (r: string)
    ensures StartsWith(s, r)
    ensures forall i | 0 <= i < |r| :: r[i] !in stops
    ensures |r| == |s| || s[|r|] in stops
    decreases |s|
  {
    if s == [] || s[0] in stops then ""
    else [s[0]] + BeforeFirst(s[1..], stops)
  }

  /**
   * Where the text after the last `c` starts: just after that `c`, or at 0
   * when `s` has no `c`.
   */
  function LastStart(s: string, c: char): (i: nat)
    ensures i <= |s|
    ensures i == 0 || s[i - 1] == c
    ensures forall j | i <= j < |s| :: s[j] != c
    decreases |s|
  {
    if s == [] then 0
    else
      var i := LastStart(s[1..], c);
      assert forall j | i + 1 <= j < |s| :: s[j] == s[1..][j - 1];
      if i > 0 || s[0] == c then i + 1 else 0
  }

  /** The three properties of `LastStart` determine it. */
  lemma LastStartUnique(s: string, c: char, i: nat)
    requires i <= |s| && (i == 0 || s[i - 1] == c)
    requires forall j | i <= j < |s| :: s[j] != c
    ensures LastStart(s, c) == i
  {
  }

  /**
   * The longest suffix of `s` not containing `c`: it is a suffix, it has
   * no `c`, and it starts where `s` starts or just after a `c`.
   */
  function AfterLast(s: string, c: char): (r: string)
    ensures |r| <= |s| && r == s[|s| - |r|..]
    ensures c !in r
    ensures |r| == |s| || s[|s| - |r| - 1] == c
  {
    var i := LastStart(s, c);
    assert forall j | 0 <= j < |s| - i :: s[i..][j] == s[i + j];
    s[i..]
  }

  /** After a `c`, a tail free of `c` is the text after the last `c`. */
  lemma AfterLastTail(a: string, c: char, b: string)
    requires c !in b
    ensures AfterLast(a + [c] + b, c) == b
  {
    var s := a + [c] + b;
    assert forall j | |a| + 1 <= j < |s| :: s[j] == b[j - |a| - 1];
    LastStartUnique(s, c, |a| + 1);
    assert s[|a| + 1..] == b;
  }

  /** A text free of `c` is its own text after the last `c`. */
  lemma AfterLastFree(s: string, c: char)
    requires c !in s
    ensures AfterLast(s, c) == s
  {
    LastStartUnique(s, c, 0);
  }

  /** A string without stop characters is cut nowhere. */
  lemma BeforeFirstFree(s: string, stops: set<char>)
    requires forall i | 0 <= i < |s| :: s[i] !in stops
    ensures BeforeFirst(s, stops) == s
  {
  }

  /** A head free of stops, followed by a stop, is the text before the first stop. */
  lemma BeforeFirstHead(a: string, x: char, b: string, stops: set<char>)
    requires forall i | 0 <= i < |a| :: a[i] !in stops
    requires x in stops
    ensures BeforeFirst(a + [x] + b, stops) == a
    decreases |a|
  {
    var s := a + [x] + b;
    if a != [] {
      assert s[0] == a[0] && s[1..] == a[1..] + [x] + b;
      BeforeFirstHead(a[1..], x, b, stops);
    }
  }

  /** The first piece of a split is the text before the first separator. */
  lemma {:induction false} SplitFirst(s: string, sep: char)
    ensures Split(s, sep)[0] == BeforeFirst(s, {sep})
  {
    if s != [] && s[0] != sep {
      SplitFirst(s[1..], sep);
    }
  }

  /** The last piece of a split is the text after the last separator. */
  lemma {:induction false} SplitLast(s: string, sep: char)
    ensures var parts := Split(s, sep); parts[|parts| - 1] == AfterLast(s, sep)
  {
    if s != [] {
      SplitLast(s[1..], sep);
      if s[0] == sep || sep in s[1..] {
        SplitLastShift(s, sep);
      } else {
        assert s == [s[0]] + s[1..];
        SplitFree(s, sep);
        AfterLastFree(s, sep);
      }
    }
  }

  /** With a separator at the front or further on, the last piece is the tail's last piece. */
  lemma SplitLastShift(s: string, sep: char)
    requires s != [] && (s[0] == sep || sep in s[1..])
    requires var rest := Split(s[1..], sep); rest[|rest| - 1] == AfterLast(s[1..], sep)
    ensures var parts := Split(s, sep); parts[|parts| - 1] == AfterLast(s, sep)
  {
    var parts, rest := Split(s, sep), Split(s[1..], sep);
    SplitCount(s[1..], sep);
    assert parts[|parts| - 1] == rest[|rest| - 1];
    LastStartStep(s, sep);
    var i := LastStart(s[1..], sep);
    assert s[1..][i..] == s[i + 1..];
  }

  /** Without a separator the only piece is the whole text. */
  lemma {:induction false} SplitFree(s: string, sep: char)
    requires sep !in s
    ensures Split(s, sep) == [s]
    decreases |s|
  {
    if s != [] {
      SplitFree(s[1..], sep);
      assert s == [s[0]] + s[1..];
    }
  }

  /** With a `c` at the front or further on, the last `c` is found in the tail. */
  lemma LastStartStep(s: string, c: char)
    requires s != [] && (s[0] == c || c in s[1..])
    ensures LastStart(s, c) == LastStart(s[1..], c) + 1
  {
  }

  /** Cutting at one set of stops and then at another cuts at either. */
  lemma {:induction false} BeforeFirstTwice(s: string, a: set<char>, b: set<char>)
    ensures BeforeFirst(BeforeFirst(s, a), b) == BeforeFirst(s, a + b)
  {
    if s != [] && s[0] !in a {
      BeforeFirstTwice(s[1..], a, b);
    }
  }

  // ---------------------------------------------------------------------
  // str.replace

  /**
   * `s.replace(pat, rep)`: scans left to right and replaces every
   * non-overlapping occurrence of `pat`. An empty `pat` matches at every
   * position, so `rep` is put before each character and at the end.
   */
  function Replace(s: string, pat: string, rep: string): (r: string)
    ensures rep == pat ==> r == s
    ensures |rep| == |pat| ==> |r| == |s|
    decreases |s|
  {
    assert s != [] ==> s == [s[0]] + s[1..];
    assert StartsWith(s, pat) ==> s == pat + s[|pat|..];
    if pat == [] then
      (if s == [] then rep else rep + [s[0]] + Replace(s[1..], pat, rep))
    else if s == [] then ""
    else if StartsWith(s, pat) then rep + Replace(s[|pat|..], pat, rep)
    else [s[0]] + Replace(s[1..], pat, rep)
  }

  /** A pattern holding a character the text lacks is left alone. */
  lemma ReplaceForeign(s: string, pat: string, rep: string, c: char)
    requires c in pat && c !in s
    ensures Replace(s, pat, rep) == s
  {
    ForeignChar(s, pat, c);
    ReplaceAbsent(s, pat, rep);
  }

  /** A match at the front is replaced and the scan resumes after it. */
  lemma ReplaceAtMatch(b: string, pat: string, rep: string)
    requires pat != []
    ensures Replace(pat + b, pat, rep) == rep + Replace(b, pat, rep)
  {
    assert (pat + b)[..|pat|] == pat;
    assert (pat + b)[|pat|..] == b;
  }

  /** A character that does not start a match is kept and the scan moves on. */
  lemma ReplaceSkip(c: char, b: string, pat: string, rep: string)
    requires pat != [] && !StartsWith([c] + b, pat)
    ensures Replace([c] + b, pat, rep) == [c] + Replace(b, pat, rep)
  {
    assert ([c] + b)[1..] == b;
  }

  /** Text lacking the first character of the pattern is kept as it is. */
  lemma {:induction false} ReplaceSkipFree(a: string, b: string, pat: string, rep: string)
    requires pat != [] && pat[0] !in a
    ensures Replace(a + b, pat, rep) == a + Replace(b, pat, rep)
    decreases |a|
  {
    if a != [] {
      assert a + b == [a[0]] + (a[1..] + b);
      assert !StartsWith(a + b, pat) by {
        assert (a + b)[0] == a[0];
      }
      ReplaceSkip(a[0], a[1..] + b, pat, rep);
      ReplaceSkipFree(a[1..], b, pat, rep);
      assert a == [a[0]] + a[1..];
    } else {
      assert a + b == b;
    }
  }

  /** Replacing a pattern that does not occur changes nothing. */
  lemma {:induction false} ReplaceAbsent(s: string, pat: string, rep: string)
    requires pat != [] && !Contains(s, pat)
    ensures Replace(s, pat, rep) == s
  {
    if s != [] {
      ReplaceAbsent(s[1..], pat, rep);
      assert s == [s[0]] + s[1..];
    }
  }

  /**
   * `v` cannot take part in forming an occurrence of `q`: it has neither
   * the first nor the last character of `q`, and it is not itself a
   * substring of `q` (so in particular it is not empty).
   */
  predicate Inert(v: string, q: string)
  {
    |q| > 0 && q[0] !in v && q[|q| - 1] !in v && !Contains(q, v)
  }

  /**
   * A prefix `t` of a replacement result, which `rep` can neither end
   * inside nor cover, is a prefix of the original text.
   */
  lemma {:induction false} ReplacePrefix(s: string, pat: string, rep: string, t: string)
    requires pat != []
    requires t == [] || t[|t| - 1] !in rep
    requires !Contains(t, rep)
    requires StartsWith(Replace(s, pat, rep), t)
    ensures StartsWith(s, t)
    decreases |s|
  {
    if t != [] && s != [] {
      if !StartsWith(s, pat) {
        var w := Replace(s[1..], pat, rep);
        assert Replace(s, pat, rep) == [s[0]] + w;
        assert t[0] == s[0];
        assert StartsWith(w, t[1..]) by {
          assert w[..|t| - 1] == ([s[0]] + w)[1..|t|];
        }
        assert !Contains(t[1..], rep);
        ReplacePrefix(s[1..], pat, rep, t[1..]);
        assert s[..|t|] == [s[0]] + s[1..][..|t| - 1];
        assert t == [t[0]] + t[1..];
      }
    }
  }

  /** Replacing `pat` by a value inert for it leaves no occurrence of `pat`. */
  lemma {:induction false} ReplaceRemoves(s: string, pat: string, rep: string)
    requires Inert(rep, pat)
    ensures !Contains(Replace(s, pat, rep), pat)
    decreases |s|
  {
    if s == [] {
      assert !StartsWith("", pat);
    } else if StartsWith(s, pat) {
      ReplaceRemoves(s[|pat|..], pat, rep);
      if Contains(Replace(s, pat, rep), pat) {
        SkipForeignPrefix(rep, Replace(s[|pat|..], pat, rep), pat);
      }
    } else {
      var w := Replace(s[1..], pat, rep);
      ReplaceRemoves(s[1..], pat, rep);
      assert Replace(s, pat, rep) == [s[0]] + w;
      assert ([s[0]] + w)[1..] == w;
      if StartsWith([s[0]] + w, pat) {
        PrefixStep(s, pat, rep, pat);
        assert false;
      }
    }
  }

  /**
   * When `s` does not start with `pat` and the result of replacing starts
   * with `q`, `s` starts with `q` too.
   */
  lemma PrefixStep(s: string, pat: string, rep: string, q: string)
    requires Inert(rep, q) && pat != [] && s != [] && !StartsWith(s, pat)
    requires StartsWith(Replace(s, pat, rep), q)
    ensures StartsWith(s, q)
  {
    var t := q[1..];
    ReplaceHead(s, pat, rep, q);
    assert t == [] || t[|t| - 1] == q[|q| - 1];
    assert !Contains(t, rep);
    ReplacePrefix(s[1..], pat, rep, t);
    StartsWithCons(s, q);
  }

  /** Past a first character that does not start `pat`, the rest of a prefix is a prefix of the rest. */
  lemma ReplaceHead(s: string, pat: string, rep: string, q: string)
    requires pat != [] && q != [] && s != [] && !StartsWith(s, pat)
    requires StartsWith(Replace(s, pat, rep), q)
    ensures s[0] == q[0] && StartsWith(Replace(s[1..], pat, rep), q[1..])
  {
    var w := Replace(s[1..], pat, rep);
    assert Replace(s, pat, rep) == [s[0]] + w;
    assert w[..|q| - 1] == ([s[0]] + w)[1..|q|];
  }

  lemma StartsWithCons(s: string, q: string)
    requires s != [] && q != [] && s[0] == q[0] && StartsWith(s[1..], q[1..])
    ensures StartsWith(s, q)
  {
    assert s[..|q|] == [s[0]] + s[1..][..|q| - 1];
    assert q == [q[0]] + q[1..];
  }

  /**
   * Replacing `pat` by a value inert for `q` creates no new occurrence of
   * `q`: every occurrence in the result was already in the text.
   */
  lemma {:induction false} ReplaceCreatesNothing(s: string, pat: string, rep: string, q: string)
    requires pat != [] && Inert(rep, q)
    requires Contains(Replace(s, pat, rep), q)
    ensures Contains(s, q)
    decreases |s|
  {
    if s == [] {
    } else if StartsWith(s, pat) {
      SkipForeignPrefix(rep, Replace(s[|pat|..], pat, rep), q);
      ReplaceCreatesNothing(s[|pat|..], pat, rep, q);
      ContainsSuffix(s, q, |pat|);
    } else {
      var w := Replace(s[1..], pat, rep);
      assert Replace(s, pat, rep) == [s[0]] + w;
      assert ([s[0]] + w)[1..] == w;
      if StartsWith([s[0]] + w, q) {
        PrefixStep(s, pat, rep, q);
      } else {
        ReplaceCreatesNothing(s[1..], pat, rep, q);
      }
    }
  }
}
