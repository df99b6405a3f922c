/** The Python string operations the request handlers rely on: `str.split`
    and `str.join` on a one-character separator, `str.strip` without
    arguments, `str.lower` and `str.endswith`. Strings are sequences of
    code points, as Python's `str` is. */
module PyStr {

  /** `s.split(sep)`: `n` occurrences of `sep` give `n + 1` parts, empty
      parts included, and no part contains the separator. */
  function Split(s: string, sep: char): (parts: seq<string>)
    ensures |parts| >= 1
    ensures forall i :: 0 <= i < |parts| ==> sep !in parts[i]
    decreases |s|
  {
    if |s| == 0 then [""]
    else
      var rest := Split(s[1..], sep);
      if s[0] == sep then [""] + rest
      else [[s[0]] + rest[0]] + rest[1..]
  }

  /** `n` occurrences of the separator give `n + 1` parts. */
  lemma {:induction false} SplitCount(s: string, sep: char)
    ensures |Split(s, sep)| == multiset(s)[sep] + 1
    decreases |s|
  {
    if |s| > 0 {
      assert s == [s[0]] + s[1..];
      SplitCount(s[1..], sep);
    }
  }

  /** `sep.join(parts)`. */
  function Join(sep: char, parts: seq<string>): string
    decreases |parts|
  {
    if |parts| == 0 then ""
    else if |parts| == 1 then parts[0]
    else parts[0] + [sep] + Join(sep, parts[1..])
  }

  /** No parts join to the empty string; otherwise the join starts with the
      first part, ends with the last one, and a separator follows the first
      part when there is more than one. */
  lemma {:induction false} JoinEnds(sep: char, parts: seq<string>)
    ensures |parts| == 0 ==> Join(sep, parts) == ""
    ensures |parts| >= 1 ==> StartsWith(Join(sep, parts), parts[0])
    ensures |parts| >= 1 ==> EndsWith(Join(sep, parts), parts[|parts| - 1])
    ensures |parts| >= 2 ==> |parts[0]| < |Join(sep, parts)| && Join(sep, parts)[|parts[0]|] == sep
    decreases |parts|
  {
    if |parts| == 1 {
      assert parts[0][..|parts[0]|] == parts[0];
    } else if |parts| >= 2 {
      var rest := Join(sep, parts[1..]);
      JoinEnds(sep, parts[1..]);
      var s := parts[0] + [sep] + rest;
      assert s[..|parts[0]|] == parts[0];
      assert s[|s| - |rest|..] == rest;
      assert parts[1..][|parts[1..]| - 1] == parts[|parts| - 1];
      assert s[|s| - |parts[|parts| - 1]|..] == rest[|rest| - |parts[|parts| - 1]|..];
    }
  }

  /** Joining two non-empty runs of parts puts exactly one separator between them. */
  lemma {:induction false} JoinAppend(sep: char, a: seq<string>, b: seq<string>)
    requires |a| >= 1 && |b| >= 1
    ensures Join(sep, a + b) == Join(sep, a) + [sep] + Join(sep, b)
    decreases |a|
  {
    if |a| == 1 {
      assert (a + b)[1..] == b;
    } else {
      assert (a + b)[1..] == a[1..] + b;
      JoinAppend(sep, a[1..], b);
    }
  }

  /** Splitting and rejoining gives the original string back. */
  lemma {:induction false} JoinSplit(s: string, sep: char)
    ensures Join(sep, Split(s, sep)) == s
    decreases |s|
  {
    if |s| > 0 {
      var rest := Split(s[1..], sep);
      JoinSplit(s[1..], sep);
      if s[0] == sep {
        assert ([""] + rest)[1..] == rest;
      } else if |rest| > 1 {
        var parts := [[s[0]] + rest[0]] + rest[1..];
        assert parts[1..] == rest[1..];
        assert Join(sep, rest) == rest[0] + [sep] + Join(sep, rest[1..]);
      }
    }
  }

  /** A string free of the separator splits into itself alone. */
  lemma {:induction false} SplitFree(s: string, sep: char)
    requires sep !in s
    ensures Split(s, sep) == [s]
    decreases |s|
  {
    if |s| > 0 {
      assert s == [s[0]] + s[1..];
      assert sep !in s[1..];
      SplitFree(s[1..], sep);
    }
  }

  /** Splitting around one separator splits each side independently. */
  lemma {:induction false} SplitAround(a: string, b: string, sep: char)
    ensures Split(a + [sep] + b, sep) == Split(a, sep) + Split(b, sep)
    decreases |a|
  {
    if |a| == 0 {
      assert a + [sep] + b == [sep] + b;
      SplitCons(sep, b, sep);
    } else {
      var t := a[1..];
      assert a + [sep] + b == [a[0]] + (t + [sep] + b);
      assert a == [a[0]] + t;
      SplitAround(t, b, sep);
      SplitCons(a[0], t + [sep] + b, sep);
      SplitCons(a[0], t, sep);
      if a[0] == sep {
        SeqAssoc([""], Split(t, sep), Split(b, sep));
      } else {
        ExtendFirstPart(a[0], Split(t, sep), Split(b, sep));
      }
    }
  }

  lemma SeqAssoc(x: seq<string>, y: seq<string>, z: seq<string>)
    ensures x + (y + z) == (x + y) + z
  {
  }

  /** Extending the first part commutes with appending further parts. */
  lemma ExtendFirstPart(c: char, ra: seq<string>, rb: seq<string>)
    requires |ra| >= 1
    ensures [[c] + (ra + rb)[0]] + (ra + rb)[1..] == ([[c] + ra[0]] + ra[1..]) + rb
  {
    assert (ra + rb)[0] == ra[0];
    assert (ra + rb)[1..] == ra[1..] + rb;
  }

  /** `Split` on a string with a known first character. */
  lemma SplitCons(c: char, t: string, sep: char)
    ensures Split([c] + t, sep)
         == if c == sep then [""] + Split(t, sep)
            else [[c] + Split(t, sep)[0]] + Split(t, sep)[1..]
  {
    assert ([c] + t)[1..] == t;
  }

  /** Joining separator-free parts and splitting again gives the parts back. */
  lemma {:induction false} SplitJoin(sep: char, parts: seq<string>)
    requires |parts| >= 1
    requires forall i :: 0 <= i < |parts| ==> sep !in parts[i]
    ensures Split(Join(sep, parts), sep) == parts
    decreases |parts|
  {
    SplitFree(parts[0], sep);
    if |parts| > 1 {
      SplitJoin(sep, parts[1..]);
      SplitAround(parts[0], Join(sep, parts[1..]), sep);
    }
  }

  /** The whitespace `str.strip()` removes, restricted to the ASCII range:
      tab, line feed, vertical tab, form feed, carriage return, the four
      information separators U+001C..U+001F, and space. */
  predicate IsSpace(c: char)
  {
    c == ' ' || ('\t' <= c <= '\r') || ('\U{1C}' <= c <= '\U{1F}')
  }

  ghost predicate AllSpace(s: string)
  {
    forall i :: 0 <= i < |s| ==> IsSpace(s[i])
  }

  /** `s.lstrip()`. */
  function TrimStart(s: string): (r: string)
    ensures |r| <= |s| && r == s[|s| - |r|..]
    ensures AllSpace(s[..|s| - |r|])
    ensures r == [] || !IsSpace(r[0])
    decreases |s|
  {
    if |s| > 0 && IsSpace(s[0]) then
      var r := TrimStart(s[1..]);
      assert s[..|s| - |r|] == [s[0]] + s[1..][..|s| - 1 - |r|];
      r
    else s
  }

  /** `s.rstrip()`. */
  function TrimEnd(s: string): (r: string)
    ensures |r| <= |s| && r == s[..|r|]
    ensures AllSpace(s[|r|..])
    ensures r == [] || !IsSpace(r[|r| - 1])
    decreases |s|
  {
    if |s| > 0 && IsSpace(s[|s| - 1]) then
      var r := TrimEnd(s[..|s| - 1]);
      assert s[|r|..] == s[..|s| - 1][|r|..] + [s[|s| - 1]];
      r
    else s
  }

  /** `r` is the infix of `s` starting at `i` with only whitespace around it. */
  ghost predicate SurroundedBySpace(s: string, r: string, i: int)
  {
    0 <= i <= |s| - |r| && s[i..i + |r|] == r
    && AllSpace(s[..i]) && AllSpace(s[i + |r|..])
  }

  /** `s.strip()`: the unique infix of `s` that is surrounded only by
      whitespace and neither starts nor ends with whitespace. */
  function Strip(s: string): (r: string)
    ensures exists i :: SurroundedBySpace(s, r, i)
    ensures r == [] || (!IsSpace(r[0]) && !IsSpace(r[|r| - 1]))
  {
    var t := TrimStart(s);
    var r := TrimEnd(t);
    TrimsSurrounded(s, t, r);
    r
  }

  /** Removing leading whitespace and then trailing whitespace leaves an
      infix that only whitespace surrounds and that has no whitespace at
      either end. */
  lemma TrimsSurrounded(s: string, t: string, r: string)
    requires |t| <= |s| && t == s[|s| - |t|..] && AllSpace(s[..|s| - |t|])
    requires t == [] || !IsSpace(t[0])
    requires |r| <= |t| && r == t[..|r|] && AllSpace(t[|r|..])
    requires r == [] || !IsSpace(r[|r| - 1])
    ensures SurroundedBySpace(s, r, |s| - |t|)
    ensures r == [] || (!IsSpace(r[0]) && !IsSpace(r[|r| - 1]))
  {
    var i := |s| - |t|;
    SliceOfSuffix(s, i, |r|);
    assert s[i..i + |r|] == r;
    assert s[i + |r|..] == t[|r|..];
    assert r != [] ==> r[0] == t[0];
  }

  lemma SliceOfSuffix(s: string, i: nat, n: nat)
    requires i + n <= |s|
    ensures s[i..][..n] == s[i..i + n] && s[i..][n..] == s[i + n..]
  {
  }

  /** `lstrip()` stops at the first character that is not whitespace. */
  lemma {:induction false} TrimStartAt(s: string, i: nat)
    requires i <= |s| && AllSpace(s[..i])
    requires i == |s| || !IsSpace(s[i])
    ensures TrimStart(s) == s[i..]
    decreases i
  {
    if i > 0 {
      assert s[..i][0] == s[0];
      assert s[1..][..i - 1] == s[1..i];
      TrimStartAt(s[1..], i - 1);
    }
  }

  /** `rstrip()` stops after the last character that is not whitespace. */
  lemma {:induction false} TrimEndAt(s: string, e: nat)
    requires e <= |s| && AllSpace(s[e..])
    requires e == 0 || !IsSpace(s[e - 1])
    ensures TrimEnd(s) == s[..e]
    decreases |s| - e
  {
    if e < |s| {
      assert s[e..][|s| - 1 - e] == s[|s| - 1];
      assert s[..|s| - 1][e..] == s[e..|s| - 1];
      TrimEndAt(s[..|s| - 1], e);
    }
  }

  /** `strip()` is characterised by its contract: any infix that only
      whitespace surrounds and that has no whitespace at either end is the
      stripped string. */
  lemma StripUnique(s: string, r: string, i: int)
    requires SurroundedBySpace(s, r, i)
    requires r == [] || (!IsSpace(r[0]) && !IsSpace(r[|r| - 1]))
    ensures Strip(s) == r
  {
    if r == [] {
      assert AllSpace(s) by {
        assert s == s[..i] + s[i + |r|..];
        AllSpaceAppend(s[..i], s[i + |r|..]);
      }
      assert s[..|s|] == s;
      TrimStartAt(s, |s|);
    } else {
      assert s[i] == r[0];
      TrimStartAt(s, i);
      var t := s[i..];
      assert t[..|r|] == r;
      assert t[|r|..] == s[i + |r|..];
      TrimEndAt(t, |r|);
    }
  }

  lemma AllSpaceAppend(a: string, b: string)
    requires AllSpace(a) && AllSpace(b)
    ensures AllSpace(a + b)
  {
  }

  /** A string with no whitespace at either end is left unchanged by `strip()`. */
  lemma StripTrimmed(s: string)
    requires s == [] || (!IsSpace(s[0]) && !IsSpace(s[|s| - 1]))
    ensures Strip(s) == s
  {
    var r := Strip(s);
    var i :| SurroundedBySpace(s, r, i);
  }

  /** `c.lower()` for an ASCII letter; other code points are kept. */
  function LowerChar(c: char): char
  {
    if 'A' <= c <= 'Z' then (c as int + 32) as char else c
  }

  /** `s.lower()`, code point by code point: every ASCII capital becomes
      the matching small letter, every other code point is kept, and no
      ASCII capital is left. */
  function Lower(s: string): (r: string)
    ensures |r| == |s|
    ensures forall i :: 0 <= i < |s| ==>
              (r[i] == s[i] || ('A' <= s[i] <= 'Z' && r[i] as int == s[i] as int + 32))
    ensures forall i :: 0 <= i < |r| ==> !('A' <= r[i] <= 'Z')
  {
    seq(|s|, i requires 0 <= i < |s| => LowerChar(s[i]))
  }

  /** `s.endswith(suffix)`: `s` is some string followed by `suffix`. */
  predicate EndsWith(s: string, suffix: string)
    ensures EndsWith(s, suffix) <==> exists p :: s == p + suffix
  {
    assert |suffix| <= |s| ==> s == s[..|s| - |suffix|] + s[|s| - |suffix|..];
    |suffix| <= |s| && s[|s| - |suffix|..] == suffix
  }

  /** `s.startswith(prefix)`. */
  ghost predicate StartsWith(s: string, prefix: string)
  {
    |prefix| <= |s| && s[..|prefix|] == prefix
  }

  /** `s.rfind(c)`: the index of the last occurrence of `c`, or -1 when
      there is none. */
  ghost function RFind(s: string, c: char): (r: int)
    ensures -1 <= r < |s|
    ensures r >= 0 ==> s[r] == c
    ensures forall j :: r < j < |s| ==> s[j] != c
    decreases |s|
  {
    if |s| == 0 then -1
    else if s[|s| - 1] == c then |s| - 1
    else RFind(s[..|s| - 1], c)
  }
}
