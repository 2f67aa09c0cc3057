/**
 Python's str methods used by the data loader: split on a single-character
 separator, the inverse join, and stripping a set of characters from either end.
 */
module Strings {

  /** Number of occurrences of `c` in `s`. */
  function Occurrences(s: string, c: char): (n: nat)
    ensures n <= |s|
  {
    if s == [] then 0 else (if s[0] == c then 1 else 0) + Occurrences(s[1..], c)
  }

  /** A character occurs nowhere exactly when it is counted zero times. */
  lemma {:induction false} OccurrencesZero(s: string, c: char)
    ensures Occurrences(s, c) == 0 <==> c !in s
  {
    if s != [] {
      OccurrencesZero(s[1..], c);
      assert s == [s[0]] + s[1..];
    }
  }

  /** `s.split(d)`: the maximal runs of characters between occurrences of `d`. */
  function Split(s: string, d: char): (fields: seq<string>)
    ensures |fields| == Occurrences(s, d) + 1
    ensures forall k :: 0 <= k < |fields| ==> d !in fields[k]
  {
    if s == [] then [""]
    else
      var rest := Split(s[1..], d);
      if s[0] == d then [""] + rest
      else [[s[0]] + rest[0]] + rest[1..]
  }

  /** `d.join(fields)` for a non-empty list of fields. */
  function Join(fields: seq<string>, d: char): string
    requires |fields| >= 1
  {
    if |fields| == 1 then fields[0] else fields[0] + [d] + Join(fields[1..], d)
  }

  /** Joining the fields of a split gives back the original text. */
  lemma {:induction false} JoinSplit(s: string, d: char)
    ensures Join(Split(s, d), d) == s
  {
    if s != [] {
      JoinSplit(s[1..], d);
      var rest := Split(s[1..], d);
      if s[0] == d {
        assert Split(s, d)[1..] == rest;
      } else {
        var f := Split(s, d);
        assert f[0] == [s[0]] + rest[0];
        if |rest| == 1 {
          assert Join(f, d) == [s[0]] + rest[0];
        } else {
          assert f[1..] == rest[1..];
          assert Join(f, d) == [s[0]] + (rest[0] + [d] + Join(rest[1..], d));
        }
      }
    }
  }

  /** Splitting a join gives back the fields, provided no field holds the separator. */
  lemma {:induction false} SplitJoin(fields: seq<string>, d: char)
    requires |fields| >= 1
    requires forall k :: 0 <= k < |fields| ==> d !in fields[k]
    ensures Split(Join(fields, d), d) == fields
  {
    if |fields| == 1 {
      SplitNoSeparator(fields[0], d);
    } else {
      SplitJoin(fields[1..], d);
      SplitPrefix(fields[0], Join(fields[1..], d), d);
      assert [fields[0]] + fields[1..] == fields;
    }
  }

  /** A text without the separator splits into itself. */
  lemma {:induction false} SplitNoSeparator(s: string, d: char)
    requires d !in s
    ensures Split(s, d) == [s]
  {
    if s != [] {
      SplitNoSeparator(s[1..], d);
      assert [s[0]] + s[1..] == s;
    }
  }

  /** Splitting `f + [d] + t`, where `f` has no separator, yields `f` followed by the split of `t`. */
  lemma {:induction false} SplitPrefix(f: string, t: string, d: char)
    requires d !in f
    ensures Split(f + [d] + t, d) == [f] + Split(t, d)
  {
    if f == [] {
      SplitStep(d, t, d);
      assert [] + [d] + t == [d] + t;
    } else {
      SplitPrefix(f[1..], t, d);
      SplitStep(f[0], f[1..] + [d] + t, d);
      assert [f[0]] + (f[1..] + [d] + t) == f + [d] + t;
      assert [f[0]] + f[1..] == f;
    }
  }

  /** One step of the split: a separator starts a new field, any other character
      joins the first one. */
  lemma SplitStep(c: char, s: string, d: char)
    ensures Split([c] + s, d) ==
      if c == d then [""] + Split(s, d) else [[c] + Split(s, d)[0]] + Split(s, d)[1..]
  {
    assert ([c] + s)[1..] == s;
  }

  /** A character in no field and other than the separator is not in the join. */
  lemma {:induction false} JoinAvoids(fields: seq<string>, d: char, c: char)
    requires |fields| >= 1 && c != d
    requires forall k :: 0 <= k < |fields| ==> c !in fields[k]
    ensures c !in Join(fields, d)
  {
    if |fields| > 1 { JoinAvoids(fields[1..], d, c); }
  }

  /** `s.lstrip(chars)`: `s` without its longest prefix made of `chars`. */
  function LStrip(s: string, chars: set<char>): (r: string)
    ensures |r| <= |s| && r == s[|s| - |r|..]
    ensures forall k :: 0 <= k < |s| - |r| ==> s[k] in chars
    ensures r == [] || r[0] !in chars
  {
    if s != [] && s[0] in chars then LStrip(s[1..], chars) else s
  }

  /** `s.rstrip(chars)`: `s` without its longest suffix made of `chars`. */
  function RStrip(s: string, chars: set<char>): (r: string)
    ensures |r| <= |s| && r == s[..|r|]
    ensures forall k :: |r| <= k < |s| ==> s[k] in chars
    ensures r == [] || r[|r| - 1] !in chars
  {
    if s != [] && s[|s| - 1] in chars then RStrip(s[..|s| - 1], chars) else s
  }

  /** The characters Python's `str.isspace` accepts, which `str.strip()` removes. */
  const Whitespace: set<char> := {
    ' ', '\t', '\n', '\U{0B}', '\U{0C}', '\r', '\U{1C}', '\U{1D}', '\U{1E}', '\U{1F}',
    '\U{85}', '\U{A0}', '\U{1680}', '\U{2000}', '\U{2001}', '\U{2002}', '\U{2003}',
    '\U{2004}', '\U{2005}', '\U{2006}', '\U{2007}', '\U{2008}', '\U{2009}', '\U{200A}',
    '\U{2028}', '\U{2029}', '\U{202F}', '\U{205F}', '\U{3000}'
  }

  /** `s.strip()`: `s` without leading and trailing whitespace. */
  function Strip(s: string): (r: string)
    ensures r == [] || (r[0] !in Whitespace && r[|r| - 1] !in Whitespace)
  {
    RStrip(LStrip(s, Whitespace), Whitespace)
  }

  /** Stripping a set of characters from both ends keeps a middle piece of `s` whole and
      drops only characters of the set before and after it. */
  lemma StripsOnlyEnds(s: string, chars: set<char>)
    ensures var r := RStrip(LStrip(s, chars), chars);
            exists a, b :: 0 <= a <= b <= |s| && r == s[a..b]
              && (forall k :: 0 <= k < a ==> s[k] in chars)
              && (forall k :: b <= k < |s| ==> s[k] in chars)
  {
    var t := LStrip(s, chars);
    var r := RStrip(t, chars);
    var a := |s| - |t|;
    var b := a + |r|;
    assert r == s[a..b] by {
      assert t == s[a..] && r == t[..|r|];
    }
    assert forall k :: b <= k < |s| ==> s[k] in chars by {
      forall k | b <= k < |s| ensures s[k] in chars {
        assert s[k] == t[k - a];
      }
    }
  }

  /** `strip()` removes the whitespace before and after the text and keeps everything
      in between, inner whitespace included. */
  lemma StripKeepsMiddle(s: string)
    ensures exists a, b :: 0 <= a <= b <= |s| && Strip(s) == s[a..b]
              && (forall k :: 0 <= k < a ==> s[k] in Whitespace)
              && (forall k :: b <= k < |s| ==> s[k] in Whitespace)
  {
    StripsOnlyEnds(s, Whitespace);
  }

  /** Stripping removes exactly the whitespace at either end: it leaves a text alone
      precisely when that text neither starts nor ends with whitespace. */
  lemma StripFixedPoint(s: string)
    ensures Strip(s) == s <==> (s == [] || (s[0] !in Whitespace && s[|s| - 1] !in Whitespace))
  {
    if s != [] && s[0] !in Whitespace && s[|s| - 1] !in Whitespace {
      assert LStrip(s, Whitespace) == s;
      assert RStrip(s, Whitespace) == s;
    }
  }

  /** Stripping twice is stripping once. */
  lemma StripIdempotent(s: string)
    ensures Strip(Strip(s)) == Strip(s)
  {
    StripFixedPoint(Strip(s));
  }
}
