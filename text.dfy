/**
 * The parts of Go's `strings` package the core relies on, over sequences:
 * Index, Contains, Split, HasPrefix, HasSuffix, Trim and TrimSpace.
 */
module Text {
  import opened Wrappers

  /** A Go byte. Go strings that carry wire data are sequences of these. */
  type byte = x: int | 0 <= x < 256

  /** `sub` occurs in `s` starting at position `j`. */
  predicate OccursAt<T(==)>(s: seq<T>, sub: seq<T>, j: int)
  {
    0 <= j && j + |sub| <= |s| && s[j..j + |sub|] == sub
  }

  /** strings.Index: the first position at which `sub` occurs in `s`. */
  function IndexOf<T(==)>(s: seq<T>, sub: seq<T>): (r: Option<nat>)
    ensures r.Some? ==> OccursAt(s, sub, r.value)
    ensures r.Some? ==> forall j :: 0 <= j < r.value ==> !OccursAt(s, sub, j)
    ensures r.None? ==> forall j :: !OccursAt(s, sub, j)
    decreases |s|
  {
    if |s| < |sub| then None
    else if s[..|sub|] == sub then Some(0)
    else
      var rest := IndexOf(s[1..], sub);
      assert forall j :: 1 <= j ==> (OccursAt(s, sub, j) <==> OccursAt(s[1..], sub, j - 1)) by {
        forall j | 1 <= j ensures OccursAt(s, sub, j) <==> OccursAt(s[1..], sub, j - 1) {
          if j + |sub| <= |s| {
            assert s[1..][j - 1..j - 1 + |sub|] == s[j..j + |sub|];
          }
        }
      }
      assert !OccursAt(s, sub, 0);
      match rest
      case None => None
      case Some(i) => Some(i + 1)
  }

  /** strings.Contains. */
  predicate Contains<T(==)>(s: seq<T>, sub: seq<T>)
  {
    IndexOf(s, sub).Some?
  }

  /** Containing a pattern is its occurring at some position. */
  lemma ContainsOccurs<T>(s: seq<T>, sub: seq<T>)
    ensures Contains(s, sub) <==> exists j :: OccursAt(s, sub, j)
  {
  }

  /** strings.Split for a non-empty separator: the pieces between occurrences of `sep`. */
  function Split<T(==)>(s: seq<T>, sep: seq<T>): (parts: seq<seq<T>>)
    requires |sep| > 0
    ensures |parts| >= 1
    ensures Join(parts, sep) == s
    ensures forall i :: 0 <= i < |parts| ==> !Contains(parts[i], sep)
    decreases |s|
  {
    match IndexOf(s, sep)
    case None => [s]
    case Some(i) =>
      var rest := Split(s[i + |sep|..], sep);
      assert !Contains(s[..i], sep) by {
        forall j | OccursAt(s[..i], sep, j) ensures false {
          assert s[..i][j..j + |sep|] == s[j..j + |sep|];
          assert OccursAt(s, sep, j);
        }
      }
      assert s == s[..i] + sep + s[i + |sep|..];
      [s[..i]] + rest
  }

  /** strings.Join, the inverse of Split. */
  function Join<T>(parts: seq<seq<T>>, sep: seq<T>): seq<T>
  {
    if |parts| == 0 then []
    else if |parts| == 1 then parts[0]
    else parts[0] + sep + Join(parts[1..], sep)
  }

  /** Every part followed by the separator, as a writer that ends each line does. */
  function Terminated<T>(parts: seq<seq<T>>, sep: seq<T>): seq<T>
    decreases |parts|
  {
    if parts == [] then []
    else Terminated(parts[..|parts| - 1], sep) + parts[|parts| - 1] + sep
  }

  lemma TerminatedAppend<T>(parts: seq<seq<T>>, x: seq<T>, sep: seq<T>)
    ensures Terminated(parts + [x], sep) == Terminated(parts, sep) + x + sep
  {
    assert (parts + [x])[..|parts|] == parts;
  }

  /** Terminating two runs of parts one after the other. */
  lemma {:induction false} TerminatedConcat<T>(a: seq<seq<T>>, b: seq<seq<T>>, sep: seq<T>)
    ensures Terminated(a + b, sep) == Terminated(a, sep) + Terminated(b, sep)
    decreases |b|
  {
    if b == [] {
      assert a + b == a;
    } else {
      var init := b[..|b| - 1];
      var x := b[|b| - 1];
      var ta, ti := Terminated(a, sep), Terminated(init, sep);
      calc {
        Terminated(a + b, sep);
      == { FrontLast(b); AppendAssoc(a, init, [x]); }
        Terminated((a + init) + [x], sep);
      == { TerminatedAppend(a + init, x, sep); TerminatedConcat(a, init, sep); }
        ta + ti + x + sep;
      == { AppendAssoc(ta, ti, x); AppendAssoc(ta, ti + x, sep); }
        ta + (ti + x + sep);
      == { FrontLast(b); TerminatedAppend(init, x, sep); }
        ta + Terminated(b, sep);
      }
    }
  }

  lemma {:induction false} JoinAppend<T>(parts: seq<seq<T>>, sep: seq<T>, x: seq<T>)
    requires |parts| >= 1
    ensures Join(parts + [x], sep) == Join(parts, sep) + sep + x
    decreases |parts|
  {
    if |parts| > 1 {
      assert (parts + [x])[1..] == parts[1..] + [x];
      JoinAppend(parts[1..], sep, x);
    }
  }

  /** Terminated parts are the parts joined, with one empty part after the last separator. */
  lemma {:induction false} TerminatedIsJoin<T>(parts: seq<seq<T>>, sep: seq<T>)
    ensures Terminated(parts, sep) == Join(parts + [[]], sep)
    decreases |parts|
  {
    if parts != [] {
      var init := parts[..|parts| - 1];
      var x := parts[|parts| - 1];
      TerminatedIsJoin(init, sep);
      assert parts == init + [x];
      if init == [] {
        assert parts + [[]] == [x, []];
      } else {
        JoinAppend(init, sep, []);
        JoinAppend(init, sep, x);
        JoinAppend(init + [x], sep, []);
      }
    }
  }

  /** Splitting at a one-element separator that does not occur in `a` cuts right after `a`. */
  lemma {:induction false} SplitAfterFirst<T>(a: seq<T>, sep: seq<T>, b: seq<T>)
    requires |sep| == 1 && !Contains(a, sep)
    ensures Split(a + sep + b, sep) == [a] + Split(b, sep)
  {
    var s := a + sep + b;
    assert OccursAt(s, sep, |a|) by {
      assert s[|a|..|a| + 1] == sep;
    }
    forall j | 0 <= j < |a| ensures !OccursAt(s, sep, j) {
      assert !OccursAt(a, sep, j);
      assert a[j..j + 1] == s[j..j + 1];
    }
    assert IndexOf(s, sep) == Some(|a|);
    assert s[..|a|] == a;
    assert s[|a| + 1..] == b;
  }

  /** The first piece of a + tail is `a` when `a` has no separator and `tail` is empty or starts with one. */
  lemma FirstPiece<T>(a: seq<T>, sep: seq<T>, tail: seq<T>)
    requires |sep| == 1 && !Contains(a, sep)
    requires tail == [] || HasPrefix(tail, sep)
    ensures Split(a + tail, sep)[0] == a
  {
    if tail == [] {
      assert a + tail == a;
      assert IndexOf(a, sep).None?;
    } else {
      assert tail == sep + tail[1..];
      assert a + tail == a + sep + tail[1..];
      SplitAfterFirst(a, sep, tail[1..]);
    }
  }

  /** Split undoes Join at a one-element separator that no part contains. */
  lemma {:induction false} SplitJoin<T>(parts: seq<seq<T>>, sep: seq<T>)
    requires |sep| == 1 && |parts| >= 1
    requires forall i :: 0 <= i < |parts| ==> !Contains(parts[i], sep)
    ensures Split(Join(parts, sep), sep) == parts
    decreases |parts|
  {
    if |parts| > 1 {
      SplitAfterFirst(parts[0], sep, Join(parts[1..], sep));
      SplitJoin(parts[1..], sep);
      assert parts == [parts[0]] + parts[1..];
    }
  }

  /** Concatenation is associative. */
  lemma AppendAssoc<T>(a: seq<T>, b: seq<T>, c: seq<T>)
    ensures a + (b + c) == (a + b) + c
  {
  }

  /** A tail of a sequence with one more element is the old tail with that element. */
  lemma TailAppend<T>(a: seq<T>, x: T, i: nat)
    requires i <= |a|
    ensures (a + [x])[i..|a| + 1] == a[i..|a|] + [x]
  {
  }

  /** A longer prefix is the shorter one with the next element. */
  lemma TakeStep<T>(s: seq<T>, i: nat)
    requires i < |s|
    ensures s[..i + 1] == s[..i] + [s[i]]
  {
  }

  /** A non-empty sequence is its front followed by its last element. */
  lemma FrontLast<T>(s: seq<T>)
    requires |s| > 0
    ensures s[..|s| - 1] + [s[|s| - 1]] == s
  {
  }

  /** strings.HasPrefix. */
  predicate HasPrefix<T(==)>(s: seq<T>, prefix: seq<T>)
    ensures HasPrefix(s, prefix) <==> OccursAt(s, prefix, 0)
  {
    |prefix| <= |s| && s[..|prefix|] == prefix
  }

  /** strings.HasSuffix. */
  predicate HasSuffix<T(==)>(s: seq<T>, suffix: seq<T>)
    ensures HasSuffix(s, suffix) <==> OccursAt(s, suffix, |s| - |suffix|)
  {
    |suffix| <= |s| && s[|s| - |suffix|..] == suffix
  }

  /** strings.TrimLeftFunc: drops the longest prefix made only of `cut` elements. */
  function TrimLeft<T>(s: seq<T>, cut: T -> bool): (r: seq<T>)
    ensures |r| <= |s| && r == s[|s| - |r|..]
    ensures forall k :: 0 <= k < |s| - |r| ==> cut(s[k])
    ensures r != [] ==> !cut(r[0])
    ensures forall x :: x in r ==> x in s
    decreases |s|
  {
    if s != [] && cut(s[0]) then TrimLeft(s[1..], cut) else s
  }

  /** strings.TrimRightFunc: drops the longest suffix made only of `cut` elements. */
  function TrimRight<T>(s: seq<T>, cut: T -> bool): (r: seq<T>)
    ensures |r| <= |s| && r == s[..|r|]
    ensures forall k :: |r| <= k < |s| ==> cut(s[k])
    ensures r != [] ==> !cut(r[|r| - 1])
    ensures forall x :: x in r ==> x in s
    decreases |s|
  {
    if s != [] && cut(s[|s| - 1]) then TrimRight(s[..|s| - 1], cut) else s
  }

  /** strings.TrimFunc: both ends; a sequence whose ends are kept is returned unchanged. */
  function Trim<T>(s: seq<T>, cut: T -> bool): (r: seq<T>)
    ensures IsTrimmedSlice(s, r, cut)
    ensures r != [] ==> !cut(r[0]) && !cut(r[|r| - 1])
    ensures (s == [] || (!cut(s[0]) && !cut(s[|s| - 1]))) ==> r == s
    ensures |r| <= |s|
    ensures forall x :: x in r ==> x in s
  {
    var left := TrimLeft(s, cut);
    var r := TrimRight(left, cut);
    TrimSlice(s, left, r, cut);
    r
  }

  /** What TrimLeft and then TrimRight leave is a slice of `s` with only cut elements around it. */
  lemma TrimSlice<T>(s: seq<T>, left: seq<T>, r: seq<T>, cut: T -> bool)
    requires |left| <= |s| && left == s[|s| - |left|..]
    requires forall k :: 0 <= k < |s| - |left| ==> cut(s[k])
    requires left != [] ==> !cut(left[0])
    requires |r| <= |left| && r == left[..|r|]
    requires forall k :: |r| <= k < |left| ==> cut(left[k])
    requires r != [] ==> !cut(r[|r| - 1])
    ensures IsTrimmedSlice(s, r, cut)
    ensures r != [] ==> !cut(r[0])
    ensures (s == [] || (!cut(s[0]) && !cut(s[|s| - 1]))) ==> r == s
    ensures forall x :: x in r ==> x in s
  {
    var i := |s| - |left|;
    var j := i + |r|;
    assert r == s[i..j];
    forall k | j <= k < |s|
      ensures cut(s[k])
    {
      assert s[k] == left[k - i];
    }
    assert CutOutside(s, i, j, cut);
    if r != [] {
      assert r[0] == left[0];
    }
  }

  /** `r` is `s[i..j]` for some bounds outside which every element of `s` is cut. */
  ghost predicate IsTrimmedSlice<T>(s: seq<T>, r: seq<T>, cut: T -> bool)
  {
    exists i, j :: 0 <= i <= j <= |s| && r == s[i..j] && CutOutside(s, i, j, cut)
  }

  predicate CutOutside<T>(s: seq<T>, i: nat, j: nat, cut: T -> bool)
    requires i <= j <= |s|
  {
    (forall k :: 0 <= k < i ==> cut(s[k])) && (forall k :: j <= k < |s| ==> cut(s[k]))
  }

  /** Trimming a sequence enclosed by two cut elements, whose own ends are kept, gives it back. */
  lemma TrimEnclosed<T>(a: T, p: seq<T>, b: T, cut: T -> bool)
    requires cut(a) && cut(b)
    requires p == [] || (!cut(p[0]) && !cut(p[|p| - 1]))
    ensures Trim([a] + p + [b], cut) == p
  {
    AppendAssoc([a], p, [b]);
    TrimLeftDrops(a, p + [b], cut);
    if p == [] {
      assert p + [b] == [b] + [];
      TrimLeftDrops(b, [], cut);
    } else {
      assert (p + [b])[0] == p[0];
      TrimRightDrops(p, b, cut);
    }
  }

  lemma TrimLeftDrops<T>(a: T, t: seq<T>, cut: T -> bool)
    requires cut(a)
    ensures TrimLeft([a] + t, cut) == TrimLeft(t, cut)
  {
    assert ([a] + t)[1..] == t;
  }

  lemma TrimRightDrops<T>(t: seq<T>, b: T, cut: T -> bool)
    requires cut(b)
    ensures TrimRight(t + [b], cut) == TrimRight(t, cut)
  {
    assert (t + [b])[..|t|] == t;
  }

  /** unicode.IsSpace: the Latin-1 spaces and the other White_Space code points. */
  predicate IsSpace(c: char)
  {
    var n := c as int;
    n == 0x09 || n == 0x0A || n == 0x0B || n == 0x0C || n == 0x0D || n == 0x20
    || n == 0x85 || n == 0xA0 || n == 0x1680 || (0x2000 <= n <= 0x200A)
    || n == 0x2028 || n == 0x2029 || n == 0x202F || n == 0x205F || n == 0x3000
  }

  /** strings.TrimSpace. */
  function TrimSpace(s: string): (r: string)
    ensures IsTrimmedSlice(s, r, IsSpace)
    ensures r != [] ==> !IsSpace(r[0]) && !IsSpace(r[|r| - 1])
    ensures (s == [] || (!IsSpace(s[0]) && !IsSpace(s[|s| - 1]))) ==> r == s
    ensures forall x :: x in r ==> x in s
  {
    Trim(s, IsSpace)
  }

  /** The characters of a byte string, one per byte (exact for ASCII). */
  function Latin1(b: seq<byte>): (s: string)
    ensures |s| == |b| && forall i :: 0 <= i < |b| ==> s[i] as int == b[i]
  {
    seq(|b|, i requires 0 <= i < |b| => b[i] as char)
  }

  /** The bytes of a string whose characters all fit in one byte. */
  function Bytes(s: string): (b: seq<byte>)
    requires forall i :: 0 <= i < |s| ==> s[i] as int < 256
    ensures |b| == |s| && forall i :: 0 <= i < |s| ==> b[i] == s[i] as int
  {
    seq(|s|, i requires 0 <= i < |s| => s[i] as int)
  }

  lemma BytesOfLatin1(b: seq<byte>)
    ensures Bytes(Latin1(b)) == b
  {
  }

  /** A one-element separator is contained exactly when its element is. */
  lemma ContainsSingle<T>(s: seq<T>, c: T)
    ensures Contains(s, [c]) <==> c in s
  {
    if c in s {
      var j :| 0 <= j < |s| && s[j] == c;
      assert s[j..j + 1] == [c];
      assert OccursAt(s, [c], j);
    }
    if Contains(s, [c]) {
      var j := IndexOf(s, [c]).value;
      assert s[j..j + 1][0] == s[j];
    }
  }

  /**
   * strings.Split(s, sep)[1] exists exactly when `sep` occurs, and it is the
   * text between the first and the second occurrence, or up to the end.
   */
  lemma SplitSecondPiece<T>(s: seq<T>, sep: seq<T>)
    requires |sep| > 0
    ensures |Split(s, sep)| >= 2 <==> Contains(s, sep)
    ensures Contains(s, sep) ==>
      var rest := s[IndexOf(s, sep).value + |sep|..];
      Split(s, sep)[1] == if Contains(rest, sep) then rest[..IndexOf(rest, sep).value] else rest
  {
  }
}
