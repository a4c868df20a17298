/** The handful of JavaScript string operations the pages rely on, over
    `string` = `seq<char>`: `split` on one character, `Array.join`,
    `includes`, and ASCII `toLowerCase` / `toUpperCase`. */
module Strings {
  import opened Seqs

  /** `needle` occurs in `hay` starting at index `i`. */
  ghost predicate OccursAt(hay: string, needle: string, i: int)
  {
    0 <= i && i + |needle| <= |hay| && hay[i..i + |needle|] == needle
  }

  /** `hay.includes(needle)`, scanning left to right; the empty string is
      included in every string. */
  predicate Contains(hay: string, needle: string)
    decreases |hay|
  {
    needle <= hay || (|hay| > 0 && Contains(hay[1..], needle))
  }

  /** The scan agrees with the positional definition, in both directions. */
  lemma {:induction false} ContainsIff(hay: string, needle: string)
    ensures Contains(hay, needle) <==> exists i :: OccursAt(hay, needle, i)
    decreases |hay|
  {
    if needle <= hay {
      assert OccursAt(hay, needle, 0);
    } else if |hay| > 0 {
      ContainsIff(hay[1..], needle);
      if Contains(hay[1..], needle) {
        var i :| OccursAt(hay[1..], needle, i);
        assert hay[1..][i..i + |needle|] == hay[i + 1..i + 1 + |needle|];
        assert OccursAt(hay, needle, i + 1);
      }
      if i :| OccursAt(hay, needle, i) && i > 0 {
        assert hay[1..][i - 1..i - 1 + |needle|] == hay[i..i + |needle|];
        assert OccursAt(hay[1..], needle, i - 1);
      }
    }
  }

  /** An occurrence at a known position is found by the scan. */
  lemma ContainsAt(hay: string, needle: string, i: int)
    requires OccursAt(hay, needle, i)
    ensures Contains(hay, needle)
  {
    ContainsIff(hay, needle);
  }

  /** A string whose `k`-th character does not occur in `hay` is not included in `hay`. */
  lemma MissingChar(hay: string, needle: string, k: int)
    requires 0 <= k < |needle| && needle[k] !in hay
    ensures !Contains(hay, needle)
  {
    forall i
      ensures !OccursAt(hay, needle, i)
    {
      if 0 <= i && i + |needle| <= |hay| {
        assert hay[i..i + |needle|][k] == hay[i + k];
      }
    }
    ContainsIff(hay, needle);
  }

  /** Whatever is written between two strings is included in the result. */
  lemma ContainsMiddle(a: string, b: string, c: string)
    ensures Contains(a + b + c, b)
  {
    assert (a + b + c)[|a|..|a| + |b|] == b;
    assert OccursAt(a + b + c, b, |a|);
    ContainsIff(a + b + c, b);
  }

  /** An occurrence inside a string is still one after text is added around it. */
  lemma OccursWidened(a: string, s: string, c: string, needle: string, i: int)
    requires OccursAt(s, needle, i)
    ensures OccursAt(a + s + c, needle, |a| + i)
  {
    assert (a + s + c)[|a| + i..|a| + i + |needle|] == s[i..i + |needle|];
  }

  /** Text added after a string keeps what the string contains. */
  lemma ContainsBefore(s: string, c: string, needle: string)
    requires Contains(s, needle)
    ensures Contains(s + c, needle)
  {
    ContainsIff(s, needle);
    var i :| OccursAt(s, needle, i);
    assert (s + c)[i..i + |needle|] == s[i..i + |needle|];
    ContainsAt(s + c, needle, i);
  }

  /** Text added before a string keeps what the string contains. */
  lemma ContainsAfter(a: string, s: string, needle: string)
    requires Contains(s, needle)
    ensures Contains(a + s, needle)
  {
    ContainsIff(s, needle);
    var i :| OccursAt(s, needle, i);
    assert (a + s)[|a| + i..|a| + i + |needle|] == s[i..i + |needle|];
    ContainsAt(a + s, needle, |a| + i);
  }

  /** `s` ends with `suffix`. */
  predicate EndsWith(s: string, suffix: string)
  {
    |suffix| <= |s| && s[|s| - |suffix|..] == suffix
  }

  /** A string ends with every tail of any suffix it ends with. */
  lemma EndsWithTail(s: string, t: string, u: string)
    requires EndsWith(s, t + u)
    ensures EndsWith(s, u)
  {
    assert s[|s| - |u|..] == s[|s| - |t + u|..][|t|..];
  }

  /** A string read as head, middle and tail begins with the head, contains
      the middle and ends with the tail. */
  lemma Sandwich(a: string, b: string, c: string)
    ensures a <= a + b + c
    ensures Contains(a + b + c, b)
    ensures EndsWith(a + b + c, c)
  {
    ContainsMiddle(a, b, c);
    assert (a + b + c)[|a + b|..] == c;
  }

  /** JavaScript's `s.split(d)` for a one-character separator: the pieces of
      `s` between separators, in order, empty pieces included. */
  function Split(s: string, d: char): (r: seq<string>)
    ensures |r| >= 1
    ensures forall k :: 0 <= k < |r| ==> d !in r[k]
    decreases |s|
  {
    if |s| == 0 then [""]
    else
      var rest := Split(s[1..], d);
      if s[0] == d then [""] + rest
      else [[s[0]] + rest[0]] + rest[1..]
  }

  /** JavaScript's `parts.join(sep)`: the empty list joins to "". */
  function Join(parts: seq<string>, sep: string): (r: string)
    ensures |parts| == 0 ==> r == ""
    ensures |parts| >= 1 ==> parts[0] <= r
    decreases |parts|
  {
    if |parts| == 0 then ""
    else if |parts| == 1 then parts[0]
    else parts[0] + sep + Join(parts[1..], sep)
  }

  /** Joining the pieces of a split with the separator gives the input back. */
  lemma {:induction false} JoinSplit(s: string, d: char)
    ensures Join(Split(s, d), [d]) == s
    decreases |s|
  {
    if |s| > 0 {
      var rest := Split(s[1..], d);
      JoinSplit(s[1..], d);
      if s[0] == d {
        assert ([""] + rest)[1..] == rest;
        assert s == [d] + s[1..];
      } else if |rest| == 1 {
        assert s == [s[0]] + s[1..];
      } else {
        var parts := [[s[0]] + rest[0]] + rest[1..];
        assert parts[1..] == rest[1..];
        assert s == [s[0]] + s[1..];
      }
    }
  }

  /** A piece free of the separator, followed by the separator, splits off as
      one piece. */
  lemma {:induction false} SplitAfterPiece(a: string, d: char, t: string)
    requires d !in a
    ensures Split(a + [d] + t, d) == [a] + Split(t, d)
    decreases |a|
  {
    var s := a + [d] + t;
    if |a| == 0 {
      assert s[1..] == t;
    } else {
      assert s[1..] == a[1..] + [d] + t;
      SplitAfterPiece(a[1..], d, t);
      assert [a[0]] + a[1..] == a;
    }
  }

  /** A string without the separator splits into itself alone. */
  lemma {:induction false} SplitNoSeparator(a: string, d: char)
    requires d !in a
    ensures Split(a, d) == [a]
    decreases |a|
  {
    if |a| > 0 {
      SplitNoSeparator(a[1..], d);
      assert [a[0]] + a[1..] == a;
    }
  }

  /** Splitting a join of separator-free pieces gives the pieces back. */
  lemma {:induction false} SplitJoin(parts: seq<string>, d: char)
    requires |parts| >= 1
    requires forall k :: 0 <= k < |parts| ==> d !in parts[k]
    ensures Split(Join(parts, [d]), d) == parts
    decreases |parts|
  {
    if |parts| == 1 {
      SplitNoSeparator(parts[0], d);
    } else {
      SplitJoin(parts[1..], d);
      SplitAfterPiece(parts[0], d, Join(parts[1..], [d]));
      assert [parts[0]] + parts[1..] == parts;
    }
  }

  /** The last element of a join of two or more parts follows the last separator. */
  lemma {:induction false} JoinLast(parts: seq<string>, sep: string)
    requires |parts| >= 2
    ensures Join(parts, sep) == Join(parts[..|parts| - 1], sep) + sep + Last(parts)
    decreases |parts|
  {
    if |parts| > 2 {
      JoinLast(parts[1..], sep);
      assert parts[1..][..|parts| - 2] == parts[..|parts| - 1][1..];
    }
  }

  /** The last piece of a split is the text after the last separator, or the
      whole string when there is no separator. */
  lemma LastPiece(s: string, d: char)
    ensures var l := Last(Split(s, d));
      && d !in l
      && |l| <= |s|
      && s[|s| - |l|..] == l
      && (|l| == |s| || s[|s| - |l| - 1] == d)
  {
    var parts := Split(s, d);
    JoinSplit(s, d);
    if |parts| >= 2 {
      JoinLast(parts, [d]);
    }
  }

  /** When the text after some separator is separator-free, it is the last piece. */
  lemma LastPieceAfter(a: string, d: char, b: string)
    requires d !in b
    ensures Last(Split(a + [d] + b, d)) == b
  {
    var s := a + [d] + b;
    var l := Last(Split(s, d));
    LastPiece(s, d);
    assert forall k :: 0 <= k < |l| ==> l[k] == s[|s| - |l| + k];
    assert forall k :: 0 <= k < |b| ==> b[k] == s[|s| - |b| + k];
    assert s[|s| - |b| - 1] == d;
  }

  /** Every part of a list is included in its join. */
  lemma {:induction false} JoinOccurs(parts: seq<string>, sep: string, k: int)
    requires 0 <= k < |parts|
    ensures exists i :: OccursAt(Join(parts, sep), parts[k], i)
    decreases |parts|
  {
    if |parts| == 1 {
      assert OccursAt(Join(parts, sep), parts[k], 0);
    } else if k == 0 {
      assert OccursAt(Join(parts, sep), parts[k], 0);
    } else {
      JoinOccurs(parts[1..], sep, k - 1);
      var i :| OccursAt(Join(parts[1..], sep), parts[1..][k - 1], i);
      OccursWidened(parts[0] + sep, Join(parts[1..], sep), "", parts[k], i);
      assert parts[0] + sep + Join(parts[1..], sep) + "" == Join(parts, sep);
    }
  }

  function LowerChar(c: char): char
  {
    if 'A' <= c <= 'Z' then (c as int + 32) as char else c
  }

  function UpperChar(c: char): char
  {
    if 'a' <= c <= 'z' then (c as int - 32) as char else c
  }

  /** `toLowerCase` restricted to ASCII letters. */
  function ToLower(s: string): (r: string)
    ensures |r| == |s|
    ensures forall k :: 0 <= k < |s| ==> r[k] == LowerChar(s[k])
  {
    seq(|s|, k requires 0 <= k < |s| => LowerChar(s[k]))
  }

  /** `toUpperCase` restricted to ASCII letters: no lower-case letter is
      left, and the text differs from `s` only in the case of its letters. */
  function ToUpper(s: string): (r: string)
    ensures |r| == |s|
    ensures forall k :: 0 <= k < |s| ==> r[k] == UpperChar(s[k])
    ensures forall k :: 0 <= k < |r| ==> !('a' <= r[k] <= 'z')
    ensures ToLower(r) == ToLower(s)
  {
    seq(|s|, k requires 0 <= k < |s| => UpperChar(s[k]))
  }

  /** Lower-casing leaves no upper-case ASCII letter and is idempotent. */
  lemma ToLowerIdempotent(s: string)
    ensures forall k :: 0 <= k < |s| ==> !('A' <= ToLower(s)[k] <= 'Z')
    ensures ToLower(ToLower(s)) == ToLower(s)
  {
  }

  /** Upper- and lower-casing undo each other up to case: either map
      applied after the other gives what it gives on the original text. */
  lemma CaseRoundTrip(s: string)
    ensures ToLower(ToUpper(s)) == ToLower(s)
    ensures ToUpper(ToLower(s)) == ToUpper(s)
  {
  }

  /** Text without upper-case ASCII letters is its own lower-case form. */
  lemma ToLowerOfLower(s: string)
    requires forall k :: 0 <= k < |s| ==> !('A' <= s[k] <= 'Z')
    ensures ToLower(s) == s
  {
  }
}
