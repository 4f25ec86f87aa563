/**
 * The parts of Python's `str` behaviour that the event outputter relies on:
 * `split` with an explicit one-character separator, `join` (its partner),
 * `lower` restricted to ASCII, `endswith`, slicing with a negative stop and
 * the lexicographic code-point comparison `<` on strings.
 */
module PyStr {
  import opened SeqLemmas

  /** Index of the first occurrence of `c` in `s` (Python's `s.index(c)`). */
  function IndexOf(s: string, c: char): (i: nat)
    requires c in s
    ensures i < |s| && s[i] == c
    ensures c !in s[..i]
  {
    if s[0] == c then 0
    else
      var j := IndexOf(s[1..], c);
      assert s[1..][..j] == s[1..j + 1];
      j + 1
  }

  /** Number of occurrences of `c` in `s`. */
  function Count(s: string, c: char): nat
  {
    if s == [] then 0 else Count(s[..|s| - 1], c) + (if s[|s| - 1] == c then 1 else 0)
  }

  lemma {:induction false} CountConcat(a: string, b: string, c: char)
    ensures Count(a + b, c) == Count(a, c) + Count(b, c)
    decreases |b|
  {
    if b == [] {
      assert a + b == a;
    } else {
      var ab := a + b;
      assert ab[..|ab| - 1] == a + b[..|b| - 1];
      assert ab[|ab| - 1] == b[|b| - 1];
      CountConcat(a, b[..|b| - 1], c);
    }
  }

  lemma {:induction false} CountAbsent(s: string, c: char)
    requires c !in s
    ensures Count(s, c) == 0
    decreases |s|
  {
    if s != [] { CountAbsent(s[..|s| - 1], c); }
  }

  /**
   * Python's `s.split(sep)` for a one-character separator given explicitly:
   * every occurrence of `sep` ends a field, empty fields are kept, and a
   * string without `sep` is one field.
   */
  function Split(s: string, sep: char): (parts: seq<string>)
    ensures |parts| == Count(s, sep) + 1
    ensures forall k :: 0 <= k < |parts| ==> sep !in parts[k]
    decreases |s|
  {
    if sep !in s then CountAbsent(s, sep); [s]
    else
      var i := IndexOf(s, sep);
      assert s == s[..i] + [sep] + s[i + 1..];
      CountConcat(s[..i] + [sep], s[i + 1..], sep);
      CountConcat(s[..i], [sep], sep);
      CountAbsent(s[..i], sep);
      [s[..i]] + Split(s[i + 1..], sep)
  }

  /** A character absent from a string is absent from each of its fields. */
  lemma {:induction false} SplitFieldsFromString(s: string, sep: char, x: char)
    requires x !in s
    ensures forall k :: 0 <= k < |Split(s, sep)| ==> x !in Split(s, sep)[k]
    decreases |s|
  {
    if sep in s {
      var i := IndexOf(s, sep);
      SplitFieldsFromString(s[i + 1..], sep, x);
    }
  }

  /** Python's `sep.join(parts)`. */
  function Join(parts: seq<string>, sep: char): string
  {
    if |parts| == 0 then []
    else if |parts| == 1 then parts[0]
    else parts[0] + [sep] + Join(parts[1..], sep)
  }

  /** Splitting at the first separator: the field before it comes first. */
  lemma {:induction false} SplitAtFirst(a: string, sep: char, b: string)
    requires sep !in a
    ensures Split(a + [sep] + b, sep) == [a] + Split(b, sep)
  {
    var s := a + [sep] + b;
    assert s[|a|] == sep;
    var i := IndexOf(s, sep);
    assert s[..i] == a;
    assert s[i + 1..] == b;
  }

  /** The first field of `a + b` is `a` when `b` is empty or starts a new field. */
  lemma FirstField(a: string, sep: char, b: string)
    requires sep !in a
    requires b == [] || b[0] == sep
    ensures Split(a + b, sep)[0] == a
  {
    if b != [] {
      assert a + b == a + [sep] + b[1..];
      SplitAtFirst(a, sep, b[1..]);
    }
  }

  /** Splitting a concatenation at a separator splits both halves. */
  lemma {:induction false} SplitConcat(a: string, sep: char, b: string)
    ensures Split(a + [sep] + b, sep) == Split(a, sep) + Split(b, sep)
    decreases |a|
  {
    if sep in a {
      var i := IndexOf(a, sep);
      var a0, a1 := a[..i], a[i + 1..];
      assert a == a0 + [sep] + a1;
      assert a + [sep] + b == a0 + [sep] + (a1 + [sep] + b);
      SplitAtFirst(a0, sep, a1 + [sep] + b);
      SplitAtFirst(a0, sep, a1);
      SplitConcat(a1, sep, b);
      AppendAssoc([a0], Split(a1, sep), Split(b, sep));
    } else {
      SplitAtFirst(a, sep, b);
    }
  }

  /** Joining the fields of a split gives back the string. */
  lemma {:induction false} JoinSplit(s: string, sep: char)
    ensures Join(Split(s, sep), sep) == s
    decreases |s|
  {
    if sep in s {
      var i := IndexOf(s, sep);
      assert s == s[..i] + [sep] + s[i + 1..];
      JoinSplit(s[i + 1..], sep);
    }
  }

  /** A join of three or more fields starts with the first three, then nothing or a separator. */
  lemma JoinFirstThree(parts: seq<string>, sep: char)
    requires |parts| >= 3
    ensures exists rest :: Join(parts, sep) == parts[0] + [sep] + parts[1] + [sep] + parts[2] + rest
                           && (rest == [] || rest[0] == sep)
  {
    var rest: string := if |parts| == 3 then [] else [sep] + Join(parts[3..], sep);
    assert parts[2..][1..] == parts[3..];
    assert Join(parts[2..], sep) == parts[2] + rest;
    assert parts[1..][1..] == parts[2..];
    assert Join(parts, sep) == parts[0] + [sep] + parts[1] + [sep] + parts[2] + rest;
  }

  /** Splitting a join of separator-free fields gives back the fields. */
  lemma {:induction false} SplitJoin(parts: seq<string>, sep: char)
    requires |parts| > 0
    requires forall k :: 0 <= k < |parts| ==> sep !in parts[k]
    ensures Split(Join(parts, sep), sep) == parts
    decreases |parts|
  {
    if |parts| > 1 {
      var tail := parts[1..];
      assert forall k :: 0 <= k < |tail| ==> sep !in tail[k] by {
        forall k | 0 <= k < |tail| ensures sep !in tail[k] {
          assert tail[k] == parts[k + 1];
        }
      }
      assert Join(parts, sep) == parts[0] + [sep] + Join(tail, sep);
      SplitJoin(tail, sep);
      SplitAtFirst(parts[0], sep, Join(tail, sep));
      HeadTail(parts);
    }
  }

  /** ASCII case folding of one character, as `str.lower` does for ASCII. */
  function LowerChar(c: char): char
  {
    if 'A' <= c <= 'Z' then (c as int + 32) as char else c
  }

  /** `s.lower()` restricted to ASCII letters. */
  function Lower(s: string): (r: string)
    ensures |r| == |s|
    ensures forall k :: 0 <= k < |r| ==> !('A' <= r[k] <= 'Z')
    ensures forall k :: 0 <= k < |r| ==> (r[k] == s[k] || ('A' <= s[k] <= 'Z' && r[k] as int == s[k] as int + 32))
  {
    seq(|s|, k requires 0 <= k < |s| => LowerChar(s[k]))
  }

  /** Lowering is idempotent. */
  lemma LowerIdempotent(s: string)
    ensures Lower(Lower(s)) == Lower(s)
  {
  }

  /** `s.endswith(suffix)`. */
  predicate EndsWith(s: string, suffix: string)
  {
    |suffix| <= |s| && s[|s| - |suffix|..] == suffix
  }

  /** A differing last character rules out the suffix. */
  lemma NotEndsWithLast(s: string, suffix: string)
    requires 0 < |suffix| <= |s| && s[|s| - 1] != suffix[|suffix| - 1]
    ensures !EndsWith(s, suffix)
  {
  }

  /** `s[:stop]` for an integer `stop`: a negative stop counts from the end and is clamped at 0. */
  function SliceTo(s: string, stop: int): (r: string)
    ensures r <= s
    ensures stop < 0 ==> |r| == (if |s| + stop < 0 then 0 else |s| + stop)
    ensures 0 <= stop ==> |r| == (if stop < |s| then stop else |s|)
  {
    if stop < 0 then (if |s| + stop < 0 then [] else s[..|s| + stop])
    else if stop < |s| then s[..stop] else s
  }

  /** Python's `a < b` on strings: lexicographic by code point, a proper prefix first. */
  predicate Less(a: string, b: string)
    decreases |a|
  {
    |b| > 0 && (|a| == 0 || a[0] < b[0] || (a[0] == b[0] && Less(a[1..], b[1..])))
  }

  /** The textbook definition of lexicographic order, independent of `Less`. */
  ghost predicate LexLess(a: string, b: string)
  {
    (|a| < |b| && a == b[..|a|]) ||
    exists k :: 0 <= k < |a| && k < |b| && a[..k] == b[..k] && a[k] < b[k]
  }

  lemma {:induction false} LessIsLexLess(a: string, b: string)
    ensures Less(a, b) <==> LexLess(a, b)
    decreases |a|
  {
    if |a| == 0 || |b| == 0 {
    } else if a[0] < b[0] {
      assert a[..0] == b[..0];
    } else if a[0] == b[0] {
      LessIsLexLess(a[1..], b[1..]);
      if LexLess(a[1..], b[1..]) {
        if |a[1..]| < |b[1..]| && a[1..] == b[1..][..|a[1..]|] {
          assert a == b[..|a|];
        } else {
          var k :| 0 <= k < |a[1..]| && k < |b[1..]| && a[1..][..k] == b[1..][..k] && a[1..][k] < b[1..][k];
          assert a[..k + 1] == [a[0]] + a[1..][..k];
          assert b[..k + 1] == [b[0]] + b[1..][..k];
        }
      }
      if LexLess(a, b) {
        if |a| < |b| && a == b[..|a|] {
          assert a[1..] == b[1..][..|a[1..]|];
        } else {
          var k :| 0 <= k < |a| && k < |b| && a[..k] == b[..k] && a[k] < b[k];
          assert k > 0;
          assert a[1..][..k - 1] == a[..k][1..];
          assert b[1..][..k - 1] == b[..k][1..];
          assert a[1..][k - 1] == a[k];
        }
      }
    } else {
      LexLessFirst(a, b);
    }
  }

  /** Under `LexLess`, the first characters are in order. */
  lemma LexLessFirst(a: string, b: string)
    requires |a| > 0 && |b| > 0
    ensures LexLess(a, b) ==> a[0] <= b[0]
  {
    if LexLess(a, b) {
      if |a| < |b| && a == b[..|a|] {
        assert b[..|a|][0] == b[0];
      } else {
        var k :| 0 <= k < |a| && k < |b| && a[..k] == b[..k] && a[k] < b[k];
        if k > 0 {
          assert a[..k][0] == b[..k][0];
        }
      }
    }
  }

  lemma {:induction false} LessIrreflexive(a: string)
    ensures !Less(a, a)
    decreases |a|
  {
    if |a| > 0 { LessIrreflexive(a[1..]); }
  }

  lemma {:induction false} LessTransitive(a: string, b: string, c: string)
    requires Less(a, b) && Less(b, c)
    ensures Less(a, c)
    decreases |a|
  {
    if |a| > 0 && a[0] == b[0] && b[0] == c[0] {
      LessTransitive(a[1..], b[1..], c[1..]);
    }
  }

  /** Any two strings are ordered one way, the other way, or equal. */
  lemma {:induction false} LessTrichotomy(a: string, b: string)
    ensures Less(a, b) || a == b || Less(b, a)
    decreases |a|
  {
    if |a| > 0 && |b| > 0 && a[0] == b[0] {
      LessTrichotomy(a[1..], b[1..]);
      if a[1..] == b[1..] {
        assert a == [a[0]] + a[1..] && b == [b[0]] + b[1..];
      }
    }
  }
}
