/** The string handling that turns raw maze text into rows: `replace(/\r/g,'')`, `split('\n')`,
    `filter(Boolean)`, `Math.max` over the lengths and `padEnd(W, ' ')`. */
module Text {

  /** The text with every carriage return removed, other characters kept in order. */
  function StripCR(s: string): (r: string)
    ensures '\r' !in r
  {
    if |s| == 0 then ""
    else
      (if s[0] == '\r' then "" else [s[0]]) + StripCR(s[1..])
  }

  /** Removing carriage returns keeps every other character with its multiplicity. */
  lemma {:induction false} StripCRCounts(s: string)
    ensures multiset(StripCR(s)) == multiset(s)['\r' := 0]
  {
    if |s| > 0 {
      StripCRCounts(s[1..]);
      assert s == [s[0]] + s[1..];
    }
  }

  /** Every character other than a carriage return survives the removal. */
  lemma StripCRKeeps(s: string, c: char)
    requires c in s && c != '\r'
    ensures c in StripCR(s)
  {
    StripCRCounts(s);
    assert multiset(s)[c] > 0;
    assert multiset(StripCR(s))[c] > 0;
  }

  /** Removing carriage returns works piecewise: the text's order and repeats are kept. */
  lemma {:induction false} StripCRConcat(a: string, b: string)
    ensures StripCR(a + b) == StripCR(a) + StripCR(b)
  {
    if |a| > 0 {
      StripCRConcat(a[1..], b);
      assert (a + b)[1..] == a[1..] + b;
      var h := if a[0] == '\r' then "" else [a[0]];
      assert StripCR(a + b) == h + StripCR(a[1..] + b);
      assert StripCR(a) == h + StripCR(a[1..]);
    } else {
      assert a + b == b;
    }
  }

  /** On one character: a carriage return disappears, anything else is kept. */
  lemma StripCROne(c: char)
    ensures StripCR([c]) == if c == '\r' then "" else [c]
  {
    assert [c][1..] == "";
  }

  /** Concatenates the parts with `sep` between consecutive parts (the inverse of `Split`). */
  function Join(parts: seq<string>, sep: char): string
    requires |parts| >= 1
  {
    if |parts| == 1 then parts[0] else parts[0] + [sep] + Join(parts[1..], sep)
  }

  /** JavaScript's `s.split(sep)` for a one-character separator: the maximal separator-free pieces,
      so "" gives [""] and a trailing separator gives a trailing "". */
  function Split(s: string, sep: char): (parts: seq<string>)
    ensures |parts| >= 1
    ensures forall i :: 0 <= i < |parts| ==> sep !in parts[i]
    ensures Join(parts, sep) == s
  {
    if |s| == 0 then [""]
    else
      var rest := Split(s[1..], sep);
      assert s == [s[0]] + s[1..];
      if s[0] == sep then
        var parts := [""] + rest;
        assert parts[1..] == rest;
        parts
      else
        var parts := [[s[0]] + rest[0]] + rest[1..];
        assert parts[1..] == rest[1..];
        assert |rest| == 1 ==> Join(parts, sep) == [s[0]] + Join(rest, sep);
        assert |rest| > 1 ==> Join(rest, sep) == rest[0] + [sep] + Join(rest[1..], sep);
        parts
  }

  /** Every character of every part comes from the text. */
  lemma {:induction false} SplitChars(s: string, sep: char)
    ensures forall p, c :: p in Split(s, sep) && c in p ==> c in s
  {
    if |s| > 0 {
      SplitChars(s[1..], sep);
      var rest := Split(s[1..], sep);
      var parts := Split(s, sep);
      assert s == [s[0]] + s[1..];
      if s[0] == sep {
        assert parts == [""] + rest;
      } else {
        assert parts == [[s[0]] + rest[0]] + rest[1..];
        forall p, c | p in parts && c in p ensures c in s {
          if p == [s[0]] + rest[0] {
            if c != s[0] {
              assert c in rest[0] && rest[0] in rest;
            }
          } else {
            assert p in rest;
          }
        }
      }
    }
  }

  /** A character of a join other than the separator comes from one of the parts. */
  lemma {:induction false} JoinChars(parts: seq<string>, sep: char, c: char)
    requires |parts| >= 1 && c in Join(parts, sep) && c != sep
    ensures exists i :: 0 <= i < |parts| && c in parts[i]
  {
    if |parts| == 1 {
      assert c in parts[0];
    } else if c !in parts[0] {
      var rest := Join(parts[1..], sep);
      assert Join(parts, sep) == parts[0] + [sep] + rest;
      assert c in rest;
      JoinChars(parts[1..], sep, c);
      var i :| 0 <= i < |parts| - 1 && c in parts[1..][i];
      assert c in parts[i + 1];
    }
  }

  /** Splitting a separator-free string gives the string itself. */
  lemma {:induction false} SplitNoSep(a: string, sep: char)
    requires sep !in a
    ensures Split(a, sep) == [a]
  {
    if |a| > 0 {
      SplitNoSep(a[1..], sep);
      assert [a[0]] + a[1..] == a;
    }
  }

  /** Splitting a text that starts with the separator: an empty first part, then the rest split. */
  lemma SplitHeadSep(t: string, sep: char)
    ensures Split([sep] + t, sep) == [""] + Split(t, sep)
  {
    assert ([sep] + t)[1..] == t;
  }

  /** Splitting a text that starts with another character: it opens the first part of the rest. */
  lemma SplitHeadChar(c: char, t: string, sep: char)
    requires c != sep
    ensures Split([c] + t, sep) == [[c] + Split(t, sep)[0]] + Split(t, sep)[1..]
  {
    assert ([c] + t)[1..] == t;
  }

  /** Splitting at the first separator: the separator-free head becomes the first part. */
  lemma {:induction false} SplitAtSep(a: string, sep: char, b: string)
    requires sep !in a
    ensures Split(a + [sep] + b, sep) == [a] + Split(b, sep)
  {
    if |a| == 0 {
      assert a + [sep] + b == [sep] + b;
      SplitHeadSep(b, sep);
    } else {
      var t := a[1..] + [sep] + b;
      assert a + [sep] + b == [a[0]] + t;
      assert a[0] in a;
      SplitAtSep(a[1..], sep, b);
      SplitHeadChar(a[0], t, sep);
      assert Split(t, sep)[0] == a[1..];
      assert Split(t, sep)[1..] == Split(b, sep);
      assert [a[0]] + a[1..] == a;
    }
  }

  /** The other direction of the round trip: joining separator-free parts and splitting gives them back. */
  lemma {:induction false} SplitJoin(parts: seq<string>, sep: char)
    requires |parts| >= 1
    requires forall i :: 0 <= i < |parts| ==> sep !in parts[i]
    ensures Split(Join(parts, sep), sep) == parts
  {
    if |parts| == 1 {
      SplitNoSep(parts[0], sep);
    } else {
      SplitJoin(parts[1..], sep);
      SplitAtSep(parts[0], sep, Join(parts[1..], sep));
      assert [parts[0]] + parts[1..] == parts;
    }
  }

  /** `filter(Boolean)` on a list of strings: drops exactly the empty strings, keeping the order. */
  function NonEmpty(ls: seq<string>): (r: seq<string>)
    ensures forall l :: l in r <==> l in ls && l != ""
    ensures forall i :: 0 <= i < |r| ==> |r[i]| > 0
    ensures |r| <= |ls|
  {
    if |ls| == 0 then []
    else
      assert ls == [ls[0]] + ls[1..];
      (if ls[0] == "" then [] else [ls[0]]) + NonEmpty(ls[1..])
  }

  /** Dropping empty lines works piecewise: the lines' order and repeats are kept. */
  lemma {:induction false} NonEmptyConcat(a: seq<string>, b: seq<string>)
    ensures NonEmpty(a + b) == NonEmpty(a) + NonEmpty(b)
  {
    if |a| > 0 {
      NonEmptyConcat(a[1..], b);
      assert (a + b)[1..] == a[1..] + b;
      assert (a + b)[0] == a[0];
    } else {
      assert a + b == b;
    }
  }

  /** On one line: an empty line disappears, any other is kept. */
  lemma NonEmptyOne(l: string)
    ensures NonEmpty([l]) == if l == "" then [] else [l]
  {
    assert [l][1..] == [];
  }

  /** `Math.max(...lengths)`, taken as 0 for an empty list. */
  function MaxLen(ls: seq<string>): (w: nat)
    ensures forall i :: 0 <= i < |ls| ==> |ls[i]| <= w
    ensures |ls| == 0 ==> w == 0
    ensures |ls| > 0 ==> exists i :: 0 <= i < |ls| && |ls[i]| == w
  {
    if |ls| == 0 then 0
    else
      var m := MaxLen(ls[1..]);
      if |ls[0]| >= m then |ls[0]|
      else
        assert forall i :: 1 <= i < |ls| ==> ls[i] == ls[1..][i - 1];
        m
  }

  /** `s.padEnd(w, ' ')`: `s` followed by spaces up to length `w`; `s` itself when it is already that long. */
  function PadEnd(s: string, w: int): (r: string)
    ensures |r| == if w > |s| then w else |s|
    ensures r[..|s|] == s
    ensures forall i :: |s| <= i < |r| ==> r[i] == ' '
  {
    if w > |s| then s + seq(w - |s|, _ => ' ') else s
  }

  /** Pads every line to width `w`. */
  function PadAll(ls: seq<string>, w: int): (rows: seq<string>)
    ensures |rows| == |ls|
    ensures forall i :: 0 <= i < |ls| ==> rows[i] == PadEnd(ls[i], w)
  {
    seq(|ls|, i requires 0 <= i < |ls| => PadEnd(ls[i], w))
  }
}
