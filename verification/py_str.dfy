/** The few operations on Python `str` values that the download script relies on,
    with CPython's semantics for the argument shapes the script uses: slicing with
    non-negative bounds, finding the last occurrence of a one-character separator,
    and `str.rsplit` with a one-character separator and a non-negative `maxsplit`. */
module PyStr {

  datatype Option<T> = None | Some(value: T)

  function Min(a: int, b: int): int { if a <= b then a else b }

  /** `s[lo:hi]` with non-negative bounds. Both bounds are clamped to `len(s)` and
      a slice whose lower bound is not below its upper bound is empty, so slicing
      never raises. */
  function Slice(s: string, lo: nat, hi: nat): (r: string)
    ensures |r| == if lo < hi && lo < |s| then Min(hi, |s|) - lo else 0
    ensures forall i :: 0 <= i < |r| ==> lo + i < |s| && r[i] == s[lo + i]
  {
    var a, b := Min(lo, |s|), Min(hi, |s|);
    if a < b then s[a..b] else []
  }

  /** `s.rfind(c)` as an option: the index of the last occurrence of `c`, if any. */
  function LastIndex(s: string, c: char): (r: Option<nat>)
    ensures r.None? <==> c !in s
    ensures r.Some? ==> r.value < |s| && s[r.value] == c && c !in s[r.value + 1..]
  {
    if s == [] then None
    else if s[|s| - 1] == c then Some(|s| - 1)
    else
      var r := LastIndex(s[..|s| - 1], c);
      assert r.Some? ==> s[r.value + 1..] == s[..|s| - 1][r.value + 1..] + [s[|s| - 1]];
      assert s == s[..|s| - 1] + [s[|s| - 1]];
      r
  }

  /** `s.rsplit(sep, maxsplit)` for a one-character separator and `maxsplit >= 0`:
      splits at the rightmost `maxsplit` occurrences of `sep`, at most. With
      `maxsplit == 0` nothing is split. */
  function RSplit(s: string, sep: char, maxsplit: nat): (r: seq<string>)
    ensures 1 <= |r| <= maxsplit + 1
    // every piece right of the first is free of the separator
    ensures forall i :: 1 <= i < |r| ==> sep !in r[i]
    // fewer than `maxsplit` splits happen only when no separator is left
    ensures |r| <= maxsplit ==> sep !in r[0]
    decreases maxsplit
  {
    if maxsplit == 0 then [s]
    else match LastIndex(s, sep)
      case None => [s]
      case Some(k) => RSplit(s[..k], sep, maxsplit - 1) + [s[k + 1..]]
  }

  /** `sep.join(parts)`, the inverse of splitting on `sep`. */
  function Join(parts: seq<string>, sep: char): string
    requires |parts| >= 1
  {
    if |parts| == 1 then parts[0]
    else Join(parts[..|parts| - 1], sep) + [sep] + parts[|parts| - 1]
  }

  /** Joining a split of `s[..k]` with the piece after a separator at `k`
      gives back `s`. */
  lemma JoinAtSeparator(s: string, k: nat, head: seq<string>, sep: char)
    requires k < |s| && s[k] == sep
    requires |head| >= 1 && Join(head, sep) == s[..k]
    ensures Join(head + [s[k + 1..]], sep) == s
  {
    var parts := head + [s[k + 1..]];
    assert parts[..|head|] == head;
    assert s == s[..k] + [sep] + s[k + 1..];
  }

  /** Splitting loses nothing: joining the pieces of `rsplit` with the same
      separator gives back the original string. */
  lemma {:induction false} RSplitJoin(s: string, sep: char, maxsplit: nat)
    ensures Join(RSplit(s, sep, maxsplit), sep) == s
    decreases maxsplit
  {
    if maxsplit == 0 || LastIndex(s, sep).None? {
      assert RSplit(s, sep, maxsplit) == [s];
    } else {
      var k := LastIndex(s, sep).value;
      var head := RSplit(s[..k], sep, maxsplit - 1);
      assert RSplit(s, sep, maxsplit) == head + [s[k + 1..]];
      RSplitJoin(s[..k], sep, maxsplit - 1);
      JoinAtSeparator(s, k, head, sep);
    }
  }

  /** Appending text free of `c` does not move the last occurrence of `c`. */
  lemma {:induction false} LastIndexAppend(s: string, t: string, c: char)
    requires c !in t
    ensures LastIndex(s + t, c) == LastIndex(s, c)
    decreases |t|
  {
    if t != [] {
      var u := s + t[..|t| - 1];
      assert (s + t)[..|s + t| - 1] == u;
      assert t == t[..|t| - 1] + [t[|t| - 1]];
      LastIndexAppend(s, t[..|t| - 1], c);
      assert (s + t)[|s + t| - 1] == t[|t| - 1] != c;
    } else {
      assert s + t == s;
    }
  }

  /** The piece after the last separator of `s + t`, when `t` has no
      separator, is `s`'s piece after its last separator followed by `t`. */
  lemma RSplitOnceAppend(s: string, t: string, sep: char)
    requires sep !in t && sep in s
    ensures LastIndex(s, sep).Some?
    ensures |RSplit(s + t, sep, 1)| == 2
    ensures RSplit(s + t, sep, 1)[1] == s[LastIndex(s, sep).value + 1..] + t
  {
    var k := LastIndex(s, sep).value;
    LastIndexAppend(s, t, sep);
    RSplitOnce(s + t, sep);
    DropAppend(s, t, k + 1);
  }

  /** Dropping a prefix of `s` from `s + t`. */
  lemma DropAppend(s: string, t: string, i: nat)
    requires i <= |s|
    ensures (s + t)[i..] == s[i..] + t
  {
  }

  /** `s.rsplit(sep, 1)` when `s` holds `sep`: the text before and after the
      last separator. */
  lemma RSplitOnce(s: string, sep: char)
    requires LastIndex(s, sep).Some?
    ensures RSplit(s, sep, 1) == [s[..LastIndex(s, sep).value], s[LastIndex(s, sep).value + 1..]]
  {
  }
}
