/** Python `str` operations used by the sync script, restricted to a
    one-character separator, with their algebraic laws. */
module PyStr {

  /** `s.split(sep)`: the fields between separators, empty fields kept, so
      the result is never empty (`"".split(".") == [""]`). The contract
      says every field is separator-free and the first field is the
      longest separator-free prefix of `s`; lemma `SplitTail` adds that
      the remaining fields are the split of what follows it. */
  function Split(s: string, sep: char): (r: seq<string>)
    ensures |r| >= 1
    ensures forall i :: 0 <= i < |r| ==> sep !in r[i]
    ensures r[0] <= s
    ensures |r[0]| < |s| ==> s[|r[0]|] == sep
    ensures |r| == 1 <==> sep !in s
    ensures |r| == 1 ==> r[0] == s
    decreases |s|
  {
    if s == [] then [[]]
    else
      var tail := Split(s[1..], sep);
      if s[0] == sep then [[]] + tail
      else [[s[0]] + tail[0]] + tail[1..]
  }

  /** Past the first field and its separator, the remaining fields are the
      split of the rest of the string. */
  lemma {:induction false} SplitTail(s: string, sep: char)
    requires |Split(s, sep)| > 1
    ensures |Split(s, sep)[0]| < |s|
    ensures Split(s, sep)[1..] == Split(s[|Split(s, sep)[0]| + 1..], sep)
    decreases |s|
  {
    var tail := Split(s[1..], sep);
    if s[0] != sep {
      SplitTail(s[1..], sep);
      assert s[1..][|tail[0]| + 1..] == s[|tail[0]| + 2..];
    }
  }

  /** `sep.join(parts)`. */
  function Join(parts: seq<string>, sep: char): string
  {
    if |parts| == 0 then []
    else if |parts| == 1 then parts[0]
    else parts[0] + [sep] + Join(parts[1..], sep)
  }

  /** Number of occurrences of `c` in `s` (`s.count(c)`). */
  function Count(s: string, c: char): nat
  {
    if s == [] then 0 else (if s[0] == c then 1 else 0) + Count(s[1..], c)
  }

  /** `s.replace(from, to)` for single characters: every `from` becomes
      `to`, every other character is kept in place. */
  function ReplaceChar(s: string, from: char, to: char): (r: string)
    ensures |r| == |s|
    ensures forall i :: 0 <= i < |s| && s[i] == from ==> r[i] == to
    ensures forall i :: 0 <= i < |s| && s[i] != from ==> r[i] == s[i]
    ensures from != to ==> from !in r
  {
    if s == [] then []
    else [if s[0] == from then to else s[0]] + ReplaceChar(s[1..], from, to)
  }

  /** A separator-free field followed by the separator splits off as the
      first field. */
  lemma {:induction false} SplitAfterField(a: string, sep: char, b: string)
    requires sep !in a
    ensures Split(a + [sep] + b, sep) == [a] + Split(b, sep)
    decreases |a|
  {
    var s := a + [sep] + b;
    if a == [] {
      assert s[1..] == b;
    } else {
      assert s[1..] == a[1..] + [sep] + b;
      SplitAfterField(a[1..], sep, b);
      assert [a[0]] + a[1..] == a;
    }
  }

  /** Three separator-free fields joined by the separator split back into
      those three fields. */
  lemma SplitThree(a: string, b: string, c: string, sep: char)
    requires sep !in a && sep !in b && sep !in c
    ensures Split(a + [sep] + b + [sep] + c, sep) == [a, b, c]
  {
    var bc := b + [sep] + c;
    assert Split(c, sep) == [c];
    SplitAfterField(b, sep, c);
    assert Split(bc, sep) == [b, c];
    assert a + [sep] + b + [sep] + c == a + [sep] + bc;
    SplitAfterField(a, sep, bc);
  }

  /** Four separator-free fields joined by the separator split back into
      those four fields. */
  lemma SplitFour(a: string, b: string, c: string, d: string, sep: char)
    requires sep !in a && sep !in b && sep !in c && sep !in d
    ensures Split(a + [sep] + b + [sep] + c + [sep] + d, sep) == [a, b, c, d]
  {
    var bcd := b + [sep] + c + [sep] + d;
    SplitThree(b, c, d, sep);
    assert Split(bcd, sep) == [b, c, d];
    assert a + [sep] + b + [sep] + c + [sep] + d == a + [sep] + bcd;
    SplitAfterField(a, sep, bcd);
    assert Split(a + [sep] + bcd, sep) == [a] + [b, c, d];
  }

  /** Splitting undoes joining, provided no part contains the separator. */
  lemma {:induction false} SplitJoin(parts: seq<string>, sep: char)
    requires |parts| >= 1
    requires forall i :: 0 <= i < |parts| ==> sep !in parts[i]
    ensures Split(Join(parts, sep), sep) == parts
    decreases |parts|
  {
    if |parts| > 1 {
      SplitJoin(parts[1..], sep);
      SplitAfterField(parts[0], sep, Join(parts[1..], sep));
      assert [parts[0]] + parts[1..] == parts;
    }
  }

  /** Joining undoes splitting, for every string. */
  lemma {:induction false} JoinSplit(s: string, sep: char)
    ensures Join(Split(s, sep), sep) == s
    decreases |s|
  {
    var r := Split(s, sep);
    if |r| > 1 {
      var k := |r[0]|;
      var rest := s[k + 1..];
      SplitTail(s, sep);
      JoinSplit(rest, sep);
      assert Join(r, sep) == r[0] + [sep] + Join(r[1..], sep);
      assert Join(r[1..], sep) == rest;
      SplitAround(s, r[0], sep);
    }
  }

  /** A string is its first field, the separator, and what follows. */
  lemma SplitAround(s: string, head: string, sep: char)
    requires head <= s && |head| < |s| && s[|head|] == sep
    ensures s == head + [sep] + s[|head| + 1..]
  {
    assert s == s[..|head|] + [sep] + s[|head| + 1..];
  }

  /** There is exactly one more field than there are separators. */
  lemma {:induction false} SplitLength(s: string, sep: char)
    ensures |Split(s, sep)| == Count(s, sep) + 1
    decreases |s|
  {
    if s != [] {
      SplitLength(s[1..], sep);
    }
  }

  /** The first field of `s` is the separator-free string `p` exactly when
      `s` is `p` itself or starts with `p` followed by the separator. */
  lemma HeadField(s: string, sep: char, p: string)
    requires sep !in p
    ensures Split(s, sep)[0] == p <==> (s == p || p + [sep] <= s)
  {
    var h := Split(s, sep)[0];
    if s != p && p + [sep] <= s {
      assert s[|p|] == sep;
      assert forall i :: 0 <= i < |p| ==> s[i] == p[i] != sep;
      assert h == s[..|p|] == p;
    }
  }
}
