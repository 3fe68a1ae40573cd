/**
 * The Python string operations the chat-label parser is built from
 * (`str.find`, `str.split`, `str.count`, `str.join`, `str.strip`), stated
 * over sequences so that the byte framing of the media server can share
 * the search functions.
 */
module PyStr {
  import opened Wrappers

  /** The needle `p` occurs in `s` starting at index `i`. */
  predicate OccursAt<T(==)>(s: seq<T>, p: seq<T>, i: nat) {
    i + |p| <= |s| && s[i..i + |p|] == p
  }

  /** `p` occurs nowhere in `s`. */
  ghost predicate Absent<T>(s: seq<T>, p: seq<T>) {
    forall i: nat :: !OccursAt(s, p, i)
  }

  /** The lowest index at or after `start` where `p` occurs in `s`. */
  function FindFrom<T(==)>(s: seq<T>, p: seq<T>, start: nat): (r: Option<nat>)
    decreases |s| - start
    ensures r.Some? ==> start <= r.value && OccursAt(s, p, r.value)
    ensures r.Some? ==> forall i: nat :: start <= i < r.value ==> !OccursAt(s, p, i)
    ensures r.None? ==> forall i: nat :: start <= i ==> !OccursAt(s, p, i)
  {
    if start + |p| > |s| then None
    else if s[start..start + |p|] == p then Some(start)
    else FindFrom(s, p, start + 1)
  }

  /** Python's `s.find(p)`, with `None` standing for the result -1. */
  function Find<T(==)>(s: seq<T>, p: seq<T>): (r: Option<nat>)
    ensures r.Some? ==> OccursAt(s, p, r.value)
    ensures r.Some? ==> forall i: nat :: i < r.value ==> !OccursAt(s, p, i)
    ensures r.None? <==> Absent(s, p)
  {
    FindFrom(s, p, 0)
  }

  /** Python's `sep.join(pieces)`. */
  function Join<T>(pieces: seq<seq<T>>, sep: seq<T>): seq<T>
  {
    if |pieces| == 0 then []
    else if |pieces| == 1 then pieces[0]
    else pieces[0] + sep + Join(pieces[1..], sep)
  }

  /**
   * Python's `s.split(sep, maxsplit)` for a non-empty separator: cut at the
   * leftmost occurrence, then go on in the remainder, at most `maxsplit`
   * times; a negative `maxsplit` means no limit.
   */
  function Split<T(==)>(s: seq<T>, sep: seq<T>, maxsplit: int): (r: seq<seq<T>>)
    requires |sep| > 0
    decreases |s|
    ensures |r| >= 1
    ensures maxsplit >= 0 ==> |r| <= maxsplit + 1
  {
    if maxsplit == 0 then [s]
    else
      match Find(s, sep)
      case None => [s]
      case Some(i) => [s[..i]] + Split(s[i + |sep|..], sep, maxsplit - 1)
  }

  /** Joining the pieces of a split with the separator gives back the original. */
  lemma {:induction false} SplitJoin<T>(s: seq<T>, sep: seq<T>, maxsplit: int)
    requires |sep| > 0
    decreases |s|
    ensures Join(Split(s, sep, maxsplit), sep) == s
  {
    var f := Find(s, sep);
    if maxsplit == 0 || f.None? {
    } else {
      var i := f.value;
      var rest := Split(s[i + |sep|..], sep, maxsplit - 1);
      SplitJoin(s[i + |sep|..], sep, maxsplit - 1);
      JoinAround(s, sep, i, rest);
    }
  }

  lemma JoinAround<T>(s: seq<T>, sep: seq<T>, i: nat, rest: seq<seq<T>>)
    requires OccursAt(s, sep, i) && |rest| > 0 && Join(rest, sep) == s[i + |sep|..]
    ensures Join([s[..i]] + rest, sep) == s
  {
    JoinCons(s[..i], rest, sep);
    Reassemble(s, sep, i);
  }

  /** Cutting `s` around an occurrence of `p` and gluing the pieces back gives `s`. */
  lemma Reassemble<T>(s: seq<T>, p: seq<T>, i: nat)
    requires OccursAt(s, p, i)
    ensures s[..i] + p + s[i + |p|..] == s
  {
    assert s == s[..i] + s[i..i + |p|] + s[i + |p|..];
  }

  lemma JoinCons<T>(head: seq<T>, rest: seq<seq<T>>, sep: seq<T>)
    requires |rest| > 0
    ensures Join([head] + rest, sep) == head + sep + Join(rest, sep)
  {
    assert ([head] + rest)[0] == head;
    assert ([head] + rest)[1..] == rest;
  }

  /** No piece of a split but the last holds the separator. */
  lemma {:induction false} SplitPiecesAbsent<T>(s: seq<T>, sep: seq<T>, maxsplit: int)
    requires |sep| > 0
    decreases |s|
    ensures forall k :: 0 <= k < |Split(s, sep, maxsplit)| - 1 ==> Absent(Split(s, sep, maxsplit)[k], sep)
  {
    var f := Find(s, sep);
    if maxsplit != 0 && f.Some? {
      var i := f.value;
      SplitPiecesAbsent(s[i + |sep|..], sep, maxsplit - 1);
      HeadAbsent(s, sep);
      ConsAbsent(Split(s, sep, maxsplit), s[..i], Split(s[i + |sep|..], sep, maxsplit - 1), sep);
    }
  }

  /** The last piece holds no separator either when the split was not stopped by `maxsplit`. */
  lemma {:induction false} SplitLastAbsent<T>(s: seq<T>, sep: seq<T>, maxsplit: int)
    requires |sep| > 0
    decreases |s|
    ensures maxsplit < 0 || |Split(s, sep, maxsplit)| <= maxsplit ==> Absent(Last(Split(s, sep, maxsplit)), sep)
  {
    var f := Find(s, sep);
    if maxsplit != 0 && f.Some? {
      var i := f.value;
      SplitLastAbsent(s[i + |sep|..], sep, maxsplit - 1);
    }
  }

  /** Nothing before the first occurrence holds the needle. */
  lemma HeadAbsent<T>(s: seq<T>, p: seq<T>)
    requires |p| > 0 && Find(s, p).Some?
    ensures Absent(s[..Find(s, p).value], p)
  {
    var i := Find(s, p).value;
    forall j: nat ensures !OccursAt(s[..i], p, j) {
      if j + |p| <= i {
        assert s[..i][j..j + |p|] == s[j..j + |p|];
        assert !OccursAt(s, p, j);
      }
    }
  }

  /** Putting a separator-free piece in front keeps every piece but the last free of the separator. */
  lemma ConsAbsent<T>(r: seq<seq<T>>, head: seq<T>, rest: seq<seq<T>>, sep: seq<T>)
    requires r == [head] + rest && Absent(head, sep)
    requires forall k :: 0 <= k < |rest| - 1 ==> Absent(rest[k], sep)
    ensures forall k :: 0 <= k < |r| - 1 ==> Absent(r[k], sep)
  {
    forall k | 0 <= k < |r| - 1 ensures Absent(r[k], sep) {
      if k > 0 { assert r[k] == rest[k - 1]; }
    }
  }

  function Last<T>(r: seq<T>): T
    requires |r| > 0
  {
    r[|r| - 1]
  }

  /** Python's `s.count(p)`: the number of non-overlapping occurrences, scanning left to right. */
  function Count<T(==)>(s: seq<T>, p: seq<T>): nat
    requires |p| > 0
    decreases |s|
  {
    match Find(s, p)
    case None => 0
    case Some(i) => 1 + Count(s[i + |p|..], p)
  }

  /** How many cuts `split` makes with limit `n` when the separator occurs `count` times: all of them, or `n`. */
  function Cuts(count: nat, n: int): nat
  {
    if n < 0 || count < n then count else n
  }

  /** `s.split(sep, n)` yields one piece more than the cuts it makes, and it cuts at most `n` times. */
  lemma {:induction false} SplitLength<T>(s: seq<T>, sep: seq<T>, n: int)
    requires |sep| > 0
    decreases |s|
    ensures |Split(s, sep, n)| == 1 + Cuts(Count(s, sep), n)
  {
    var f := Find(s, sep);
    if n == 0 || f.None? {
      NoCut(s, sep, n);
    } else {
      var rest := s[f.value + |sep|..];
      SplitLength(rest, sep, n - 1);
      CutOnce(s, sep, n);
      CutsStep(Count(rest, sep), n);
    }
  }

  lemma CutsStep(count: nat, n: int)
    requires n != 0
    ensures Cuts(count + 1, n) == 1 + Cuts(count, n - 1)
  {
  }

  /** A split that makes no cut yields the input alone; it makes none when the limit is 0 or there is nothing to cut at. */
  lemma NoCut<T>(s: seq<T>, sep: seq<T>, n: int)
    requires |sep| > 0 && (n == 0 || Find(s, sep).None?)
    ensures Split(s, sep, n) == [s]
    ensures n != 0 ==> Count(s, sep) == 0
  {
  }

  /** One cut of a split: one more piece, and one occurrence fewer left to count. */
  lemma CutOnce<T>(s: seq<T>, sep: seq<T>, n: int)
    requires |sep| > 0 && n != 0 && Find(s, sep).Some?
    ensures var rest := s[Find(s, sep).value + |sep|..];
            |Split(s, sep, n)| == 1 + |Split(rest, sep, n - 1)| && Count(s, sep) == 1 + Count(rest, sep)
  {
    var i := Find(s, sep).value;
  }

  /** For a one-element needle, `count` is the number of times the element appears. */
  lemma {:induction false} CountElement<T>(s: seq<T>, c: T)
    decreases |s|
    ensures Count(s, [c]) == multiset(s)[c]
  {
    match Find(s, [c])
    case None =>
      forall k | 0 <= k < |s| ensures s[k] != c {
        assert !OccursAt(s, [c], k);
      }
      assert c !in multiset(s);
    case Some(i) =>
      forall k | 0 <= k < i ensures s[k] != c {
        assert !OccursAt(s, [c], k);
      }
      assert c !in multiset(s[..i]);
      assert s == s[..i] + [c] + s[i + 1..];
      CountElement(s[i + 1..], c);
  }

  /** A first occurrence is found exactly where it is: the separator sits at `|x|` and nowhere before it. */
  lemma FindAt<T>(s: seq<T>, p: seq<T>, k: nat)
    requires OccursAt(s, p, k)
    requires forall i: nat :: i < k ==> !OccursAt(s, p, i)
    ensures Find(s, p) == Some(k)
  {
  }

  /** A pattern whose first element does not occur in `x` is first found right after `x`. */
  lemma FindFirst<T>(x: seq<T>, p: seq<T>, y: seq<T>)
    requires |p| > 0 && p[0] !in x
    ensures Find(x + p + y, p) == Some(|x|)
  {
    var s := x + p + y;
    forall i: nat | i < |x| ensures !OccursAt(s, p, i) {
      assert s[i] == x[i];
      if i + |p| <= |s| { assert s[i..i + |p|][0] == s[i]; }
    }
    assert s[|x|..|x| + |p|] == p;
    FindAt(s, p, |x|);
  }

  /** A needle with an element that `s` lacks occurs nowhere in `s`. */
  lemma AbsentByElement<T>(s: seq<T>, p: seq<T>, j: nat)
    requires j < |p| && p[j] !in s
    ensures Absent(s, p)
  {
    forall i: nat ensures !OccursAt(s, p, i) {
      if i + |p| <= |s| {
        assert s[i..i + |p|][j] == s[i + j];
      }
    }
  }

  /** A split whose first cut falls right after `x` yields `x`, then the pieces of what follows the separator. */
  lemma SplitAfter<T>(x: seq<T>, sep: seq<T>, y: seq<T>, n: int)
    requires |sep| > 0 && n != 0 && Find(x + sep + y, sep) == Some(|x|)
    ensures Split(x + sep + y, sep, n) == [x] + Split(y, sep, n - 1)
  {
    var s := x + sep + y;
    assert s[..|x|] == x && s[|x| + |sep|..] == y;
  }

  /** Splitting once at a known first occurrence. */
  lemma {:induction false} SplitOnceAt<T>(x: seq<T>, sep: seq<T>, y: seq<T>)
    requires |sep| > 0
    requires forall i: nat :: i < |x| ==> !OccursAt(x + sep + y, sep, i)
    requires Absent(y, sep)
    ensures Split(x + sep + y, sep, -1) == [x, y]
  {
    var s := x + sep + y;
    assert s[|x|..|x| + |sep|] == sep;
    FindAt(s, sep, |x|);
    assert s[..|x|] == x;
    assert s[|x| + |sep|..] == y;
  }

  /** Python's `str.isspace` for one character: the characters `str.strip()` removes. */
  predicate IsSpace(c: char) {
    var n := c as int;
    n == 0x20 || 0x09 <= n <= 0x0D || 0x1C <= n <= 0x1F || n == 0x85 || n == 0xA0 ||
    n == 0x1680 || 0x2000 <= n <= 0x200A || n == 0x2028 || n == 0x2029 ||
    n == 0x202F || n == 0x205F || n == 0x3000
  }

  ghost predicate AllSpace(s: string) {
    forall i :: 0 <= i < |s| ==> IsSpace(s[i])
  }

  /** Neither end of `s` is whitespace. */
  predicate Stripped(s: string) {
    s == [] || (!IsSpace(s[0]) && !IsSpace(s[|s| - 1]))
  }

  /** Python's `s.lstrip()`: the suffix left after dropping leading whitespace. */
  function LStrip(s: string): (r: string)
    ensures |r| <= |s| && r == s[|s| - |r|..]
    ensures AllSpace(s[..|s| - |r|])
    ensures r == [] || !IsSpace(r[0])
  {
    if |s| > 0 && IsSpace(s[0]) then
      var r := LStrip(s[1..]);
      assert s[..|s| - |r|] == [s[0]] + s[1..][..|s| - 1 - |r|];
      r
    else s
  }

  /** Python's `s.rstrip()`: the prefix left after dropping trailing whitespace. */
  function RStrip(s: string): (r: string)
    ensures |r| <= |s| && r == s[..|r|]
    ensures AllSpace(s[|r|..])
    ensures r == [] || !IsSpace(r[|r| - 1])
  {
    if |s| > 0 && IsSpace(s[|s| - 1]) then
      var r := RStrip(s[..|s| - 1]);
      assert s[|r|..] == s[..|s| - 1][|r|..] + [s[|s| - 1]];
      r
    else s
  }

  /** Python's `s.strip()`: `s` with its whitespace padding on both sides removed. */
  function Strip(s: string): (r: string)
    ensures |r| <= |s| && Stripped(r)
  {
    RStrip(LStrip(s))
  }

  /** What `strip` keeps is a slice of its input, with only whitespace on either side. */
  lemma StripSlice(s: string) returns (k: nat)
    ensures k + |Strip(s)| <= |s| && Strip(s) == s[k..k + |Strip(s)|]
    ensures AllSpace(s[..k]) && AllSpace(s[k + |Strip(s)|..])
  {
    var l := LStrip(s);
    var r := RStrip(l);
    k := |s| - |l|;
    SuffixSlices(s, k, |r|);
  }

  lemma SuffixSlices(s: string, k: nat, n: nat)
    requires k + n <= |s|
    ensures s[k..][..n] == s[k..k + n] && s[k..][n..] == s[k + n..]
  {
  }

  /** `lstrip` removes exactly a whitespace prefix that stands before a non-space character. */
  lemma {:induction false} LStripPadded(u: string, x: string)
    requires AllSpace(u) && (x == [] || !IsSpace(x[0]))
    decreases |u|
    ensures LStrip(u + x) == x
  {
    if u != [] {
      assert (u + x)[1..] == u[1..] + x;
      LStripPadded(u[1..], x);
    }
  }

  /** `rstrip` removes exactly a whitespace suffix that stands after a non-space character. */
  lemma {:induction false} RStripPadded(x: string, v: string)
    requires AllSpace(v) && (x == [] || !IsSpace(x[|x| - 1]))
    decreases |v|
    ensures RStrip(x + v) == x
  {
    if v != [] {
      assert (x + v)[..|x + v| - 1] == x + v[..|v| - 1];
      RStripPadded(x, v[..|v| - 1]);
    }
  }

  /** `strip` undoes whitespace padding of a stripped string, whatever the padding. */
  lemma StripPadded(u: string, x: string, v: string)
    requires AllSpace(u) && AllSpace(v) && Stripped(x)
    ensures Strip(u + x + v) == x
  {
    if x == [] {
      assert u + x + v == u + v;
      LStripPadded(u + v, []);
    } else {
      assert u + x + v == u + (x + v);
      LStripPadded(u, x + v);
      RStripPadded(x, v);
    }
  }

  /** Stripping twice is stripping once. */
  lemma StripIdempotent(s: string)
    ensures Strip(Strip(s)) == Strip(s)
  {
    StripFixed(Strip(s));
  }

  /** A string with no whitespace at either end is its own `strip`. */
  lemma StripFixed(x: string)
    requires Stripped(x)
    ensures Strip(x) == x
  {
    assert LStrip(x) == x;
  }
}
