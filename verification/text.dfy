/** The JavaScript string operations the storefront uses: `startsWith`,
    `includes`, `toLowerCase`, `split` on a one-character separator, and
    `join`. Strings are sequences of `char`, Dafny's Unicode scalar values. */
module Text {

  /** `s.startsWith(prefix)`. */
  predicate StartsWith(s: string, prefix: string) {
    |prefix| <= |s| && s[..|prefix|] == prefix
  }

  /** `t` occurs in `s` starting at offset `i`. */
  predicate OccursAt(s: string, t: string, i: int) {
    0 <= i && i + |t| <= |s| && s[i..i + |t|] == t
  }

  /** `s.includes(t)`, scanning offsets from left to right. */
  predicate Includes(s: string, t: string)
    decreases |s|
  {
    StartsWith(s, t) || (|s| > 0 && Includes(s[1..], t))
  }

  /** The scan finds `t` exactly when `t` occurs somewhere in `s`. */
  lemma {:induction false} IncludesIffOccurs(s: string, t: string)
    ensures Includes(s, t) <==> exists i :: OccursAt(s, t, i)
    decreases |s|
  {
    if Includes(s, t) {
      if StartsWith(s, t) {
        assert OccursAt(s, t, 0);
      } else {
        IncludesIffOccurs(s[1..], t);
        var i :| OccursAt(s[1..], t, i);
        assert s[1..][i..i + |t|] == s[i + 1..i + 1 + |t|];
        assert OccursAt(s, t, i + 1);
      }
    }
    if exists i :: OccursAt(s, t, i) {
      var i :| OccursAt(s, t, i);
      if i > 0 {
        assert s[1..][i - 1..i - 1 + |t|] == s[i..i + |t|];
        assert OccursAt(s[1..], t, i - 1);
        IncludesIffOccurs(s[1..], t);
      } else {
        assert StartsWith(s, t);
      }
    }
  }

  /** The empty string is included in every string. */
  lemma IncludesEmpty(s: string)
    ensures Includes(s, "")
  {
    assert StartsWith(s, "");
  }

  /** `toLowerCase` on one character; only the ASCII letters A-Z are mapped. */
  function LowerChar(c: char): char {
    if 'A' <= c <= 'Z' then (c as int + 32) as char else c
  }

  function Lower(s: string): (r: string)
    ensures |r| == |s|
    ensures forall i :: 0 <= i < |s| ==> r[i] == LowerChar(s[i])
  {
    seq(|s|, i requires 0 <= i < |s| => LowerChar(s[i]))
  }

  /** Lowering twice is lowering once. */
  lemma LowerIdempotent(s: string)
    ensures Lower(Lower(s)) == Lower(s)
  {
  }

  /** `s.split(sep)` for a one-character separator: the maximal runs between
      separators, so `k` separators give `k + 1` fields, some possibly empty. */
  function Split(s: string, sep: char): (parts: seq<string>)
    ensures |parts| >= 1
    ensures forall i :: 0 <= i < |parts| ==> sep !in parts[i]
    decreases |s|
  {
    if |s| == 0 then [""]
    else
      var rest := Split(s[1..], sep);
      if s[0] == sep then [""] + rest
      else [[s[0]] + rest[0]] + rest[1..]
  }

  /** `parts.join(sep)`; joining no parts gives the empty string. */
  function Join(parts: seq<string>, sep: char): string
    decreases |parts|
  {
    if |parts| == 0 then ""
    else if |parts| == 1 then parts[0]
    else parts[0] + [sep] + Join(parts[1..], sep)
  }

  /** Every part is included in the joined string. */
  lemma JoinIncludes(parts: seq<string>, sep: char)
    ensures forall i :: 0 <= i < |parts| ==> Includes(Join(parts, sep), parts[i])
  {
    forall i | 0 <= i < |parts| ensures Includes(Join(parts, sep), parts[i]) {
      var k := JoinOffset(parts, sep, i);
      IncludesIffOccurs(Join(parts, sep), parts[i]);
    }
  }

  /** Where part `i` starts in the joined string. */
  function JoinOffset(parts: seq<string>, sep: char, i: int): (k: int)
    requires 0 <= i < |parts|
    ensures OccursAt(Join(parts, sep), parts[i], k)
    decreases |parts|
  {
    var j := Join(parts, sep);
    if i == 0 then
      assert |parts| == 1 || j == parts[0] + [sep] + Join(parts[1..], sep);
      assert j[0..|parts[0]|] == parts[0];
      0
    else
      var tail := Join(parts[1..], sep);
      assert j == parts[0] + [sep] + tail;
      assert parts[1..][i - 1] == parts[i];
      var k := JoinOffset(parts[1..], sep, i - 1);
      var off := |parts[0]| + 1;
      assert j[off + k..off + k + |parts[i]|] == tail[k..k + |parts[i]|];
      off + k
  }

  /** Splitting loses nothing: joining the fields back gives the input. */
  lemma {:induction false} JoinSplit(s: string, sep: char)
    ensures Join(Split(s, sep), sep) == s
    decreases |s|
  {
    if |s| > 0 {
      var rest := Split(s[1..], sep);
      JoinSplit(s[1..], sep);
      if s[0] == sep {
        assert ([""] + rest)[1..] == rest;
        assert s == [sep] + s[1..];
      } else if |rest| == 1 {
        assert s == [s[0]] + s[1..];
      } else {
        var parts := [[s[0]] + rest[0]] + rest[1..];
        assert parts[1..] == rest[1..];
        assert Join(rest, sep) == rest[0] + [sep] + Join(rest[1..], sep);
        assert s == [s[0]] + s[1..];
      }
    }
  }

  /** A string without the separator is a single field. */
  lemma {:induction false} SplitNoSep(s: string, sep: char)
    requires sep !in s
    ensures Split(s, sep) == [s]
    decreases |s|
  {
    if |s| > 0 {
      SplitNoSep(s[1..], sep);
      assert s == [s[0]] + s[1..];
    }
  }

  /** A separator-free head followed by a separator is the first field. */
  lemma {:induction false} SplitHead(head: string, sep: char, tail: string)
    requires sep !in head
    ensures Split(head + [sep] + tail, sep) == [head] + Split(tail, sep)
    decreases |head|
  {
    var s := head + [sep] + tail;
    if |head| == 0 {
      assert s == [sep] + tail;
      assert s[1..] == tail;
    } else {
      assert s[1..] == head[1..] + [sep] + tail;
      SplitHead(head[1..], sep, tail);
      assert head == [head[0]] + head[1..];
    }
  }

  /** Joining separator-free fields and splitting again gives the fields back. */
  lemma {:induction false} SplitJoin(parts: seq<string>, sep: char)
    requires |parts| >= 1
    requires forall i :: 0 <= i < |parts| ==> sep !in parts[i]
    ensures Split(Join(parts, sep), sep) == parts
    decreases |parts|
  {
    if |parts| == 1 {
      SplitNoSep(parts[0], sep);
    } else {
      SplitJoin(parts[1..], sep);
      SplitHead(parts[0], sep, Join(parts[1..], sep));
      assert parts == [parts[0]] + parts[1..];
    }
  }

  /** The fields of every part, in order: what splitting each part gives,
      concatenated. */
  function SplitAll(parts: seq<string>, sep: char): (fields: seq<string>)
    ensures |parts| > 0 ==> |fields| >= |parts|
    ensures forall i :: 0 <= i < |fields| ==> sep !in fields[i]
    decreases |parts|
  {
    if |parts| == 0 then [] else Split(parts[0], sep) + SplitAll(parts[1..], sep)
  }

  /** A separator splits the string into the fields on its left followed by
      the fields on its right. */
  lemma {:induction false} SplitConcat(a: string, sep: char, b: string)
    ensures Split(a + [sep] + b, sep) == Split(a, sep) + Split(b, sep)
    decreases |a|
  {
    if |a| == 0 {
      assert a + [sep] + b == [sep] + b;
      SplitStep(sep, b, sep);
    } else {
      SplitConcat(a[1..], sep, b);
      SplitLift(a[0], sep, a[1..] + [sep] + b, a[1..], Split(b, sep));
      assert a == [a[0]] + a[1..];
      assert a + [sep] + b == [a[0]] + (a[1..] + [sep] + b);
    }
  }

  /** Putting the same character in front of two strings keeps a common
      suffix of their fields. */
  lemma SplitLift(c: char, sep: char, t: string, u: string, q: seq<string>)
    requires Split(t, sep) == Split(u, sep) + q
    ensures Split([c] + t, sep) == Split([c] + u, sep) + q
  {
    SplitStep(c, t, sep);
    SplitStep(c, u, sep);
    ConsFieldAssoc(c, sep, Split(u, sep), q);
  }

  /** What one leading character adds to the fields of the rest. */
  function ConsField(c: char, sep: char, parts: seq<string>): seq<string>
    requires |parts| >= 1
  {
    if c == sep then [""] + parts else [[c] + parts[0]] + parts[1..]
  }

  lemma SplitStep(c: char, t: string, sep: char)
    ensures Split([c] + t, sep) == ConsField(c, sep, Split(t, sep))
  {
    assert ([c] + t)[1..] == t;
  }

  lemma ConsFieldAssoc(c: char, sep: char, r: seq<string>, q: seq<string>)
    requires |r| >= 1
    ensures ConsField(c, sep, r + q) == ConsField(c, sep, r) + q
  {
    if c != sep {
      assert (r + q)[1..] == r[1..] + q;
    }
  }

  /** Joining arbitrary parts and splitting again gives the fields of each
      part in turn; separators inside a part become field boundaries. */
  lemma {:induction false} SplitJoinAll(parts: seq<string>, sep: char)
    requires |parts| >= 1
    ensures Split(Join(parts, sep), sep) == SplitAll(parts, sep)
    decreases |parts|
  {
    if |parts| == 1 {
      assert SplitAll(parts[1..], sep) == [];
    } else {
      SplitJoinAll(parts[1..], sep);
      SplitConcat(parts[0], sep, Join(parts[1..], sep));
    }
  }

  /** The concatenated fields contain an empty one exactly when some part's
      fields do. */
  lemma {:induction false} SplitAllEmptyField(parts: seq<string>, sep: char)
    ensures "" in SplitAll(parts, sep) <==> exists i :: 0 <= i < |parts| && "" in Split(parts[i], sep)
    decreases |parts|
  {
    if |parts| > 0 {
      SplitAllEmptyField(parts[1..], sep);
      if exists i :: 0 <= i < |parts| && "" in Split(parts[i], sep) {
        var i :| 0 <= i < |parts| && "" in Split(parts[i], sep);
        if i > 0 {
          assert parts[1..][i - 1] == parts[i];
        }
      }
      if exists i :: 0 <= i < |parts[1..]| && "" in Split(parts[1..][i], sep) {
        var i :| 0 <= i < |parts[1..]| && "" in Split(parts[1..][i], sep);
        assert parts[i + 1] == parts[1..][i];
      }
    }
  }

  /** Splitting gives a single field exactly when there is no separator. */
  lemma SingleFieldIff(s: string, sep: char)
    ensures |Split(s, sep)| == 1 <==> sep !in s
  {
    if sep !in s {
      SplitNoSep(s, sep);
    } else if |Split(s, sep)| == 1 {
      JoinSplit(s, sep);
    }
  }
}
