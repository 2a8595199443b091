/**
 * Go's url.QueryEscape and url.QueryUnescape (form encoding of a query
 * component): unreserved bytes stay, a space is '+', every other byte is
 * '%' followed by two upper-case hex digits; unescaping reverses this and
 * rejects a '%' that is not followed by two hex digits.
 */
module UrlEscape {
  import opened Wrappers
  import opened Text

  const Space: byte := 32
  const Plus: byte := 43
  const Percent: byte := 37

  /** A-Z a-z 0-9 - _ . ~ : the bytes QueryEscape leaves alone. */
  predicate Unreserved(c: byte)
  {
    (65 <= c <= 90) || (97 <= c <= 122) || (48 <= c <= 57) || c == 45 || c == 95 || c == 46 || c == 126
  }

  predicate IsHex(c: byte)
  {
    (48 <= c <= 57) || (97 <= c <= 102) || (65 <= c <= 70)
  }

  function HexValue(c: byte): (v: int)
    requires IsHex(c)
    ensures 0 <= v < 16
  {
    if c <= 57 then c - 48 else if c >= 97 then c - 87 else c - 55
  }

  /** An upper-case hex digit, read back by HexValue. */
  function HexDigit(v: int): (c: byte)
    requires 0 <= v < 16
    ensures IsHex(c) && HexValue(c) == v && Unreserved(c)
  {
    if v < 10 then 48 + v else 55 + v
  }

  function EscapeByte(c: byte): seq<byte>
  {
    if Unreserved(c) then [c]
    else if c == Space then [Plus]
    else [Percent, HexDigit(c / 16), HexDigit(c % 16)]
  }

  /** url.QueryEscape. Its output holds only unreserved bytes, '%', and '+' for a space of the input. */
  function QueryEscape(s: seq<byte>): (r: seq<byte>)
    ensures forall i :: 0 <= i < |r| ==> Unreserved(r[i]) || r[i] == Percent || (r[i] == Plus && Space in s)
    decreases |s|
  {
    if s == [] then []
    else
      var rest := QueryEscape(s[1..]);
      assert Space in s[1..] ==> Space in s;
      EscapeByte(s[0]) + rest
  }

  /** url.QueryUnescape; None stands for an EscapeError. */
  function QueryUnescape(s: seq<byte>): (r: Option<seq<byte>>)
    ensures r.Some? ==> |r.value| <= |s|
    decreases |s|
  {
    if s == [] then Some([])
    else if s[0] == Percent then
      if |s| < 3 || !IsHex(s[1]) || !IsHex(s[2]) then None
      else match QueryUnescape(s[3..])
        case None => None
        case Some(t) => Some([HexValue(s[1]) * 16 + HexValue(s[2])] + t)
    else match QueryUnescape(s[1..])
      case None => None
      case Some(t) => Some([if s[0] == Plus then Space else s[0]] + t)
  }

  /** A '%' at `i` that does not start a two-hex-digit escape. */
  predicate MalformedAt(s: seq<byte>, i: int)
  {
    0 <= i < |s| && s[i] == Percent && !(i + 2 < |s| && IsHex(s[i + 1]) && IsHex(s[i + 2]))
  }

  /** Any malformed escape anywhere makes QueryUnescape fail. */
  lemma {:induction false} UnescapeRejectsMalformed(s: seq<byte>, i: int)
    requires MalformedAt(s, i)
    ensures QueryUnescape(s).None?
    decreases |s|
  {
    if i > 0 {
      if s[0] == Percent {
        if |s| >= 3 && IsHex(s[1]) && IsHex(s[2]) {
          assert i >= 3;
          UnescapeRejectsMalformed(s[3..], i - 3);
        }
      } else {
        UnescapeRejectsMalformed(s[1..], i - 1);
      }
    }
  }

  /** Without a malformed escape, QueryUnescape succeeds. */
  lemma {:induction false} UnescapeAcceptsWellFormed(s: seq<byte>)
    requires forall i :: !MalformedAt(s, i)
    ensures QueryUnescape(s).Some?
    decreases |s|
  {
    if s != [] {
      if s[0] == Percent {
        assert !MalformedAt(s, 0);
        forall i ensures !MalformedAt(s[3..], i) {
          assert MalformedAt(s[3..], i) ==> MalformedAt(s, i + 3);
        }
        UnescapeAcceptsWellFormed(s[3..]);
      } else {
        forall i ensures !MalformedAt(s[1..], i) {
          assert MalformedAt(s[1..], i) ==> MalformedAt(s, i + 1);
        }
        UnescapeAcceptsWellFormed(s[1..]);
      }
    }
  }

  /** The bytes `p` in front of a successful result. */
  function PrependTo(p: seq<byte>, r: Option<seq<byte>>): Option<seq<byte>>
  {
    match r
    case None => None
    case Some(t) => Some(p + t)
  }

  /** One byte other than '%' and '+' passes through QueryUnescape unchanged. */
  lemma UnescapePlainByte(c: byte, rest: seq<byte>)
    requires c != Percent && c != Plus
    ensures QueryUnescape([c] + rest) == PrependTo([c], QueryUnescape(rest))
  {
    assert ([c] + rest)[1..] == rest;
  }

  /** Prepending bytes in two steps is prepending their concatenation. */
  lemma PrependTwice(a: seq<byte>, b: seq<byte>, r: Option<seq<byte>>)
    ensures PrependTo(a, PrependTo(b, r)) == PrependTo(a + b, r)
  {
    match r
    case None =>
    case Some(t) => assert a + (b + t) == a + b + t;
  }

  /** Bytes other than '%' and '+' pass through QueryUnescape unchanged. */
  lemma {:induction false} UnescapePlainPrefix(plain: seq<byte>, rest: seq<byte>)
    requires forall i :: 0 <= i < |plain| ==> plain[i] != Percent && plain[i] != Plus
    ensures QueryUnescape(plain + rest) == PrependTo(plain, QueryUnescape(rest))
    decreases |plain|
  {
    if plain == [] {
      assert plain + rest == rest;
      match QueryUnescape(rest)
      case None =>
      case Some(t) => assert plain + t == t;
    } else {
      var c := plain[0];
      var tail := plain[1..];
      assert plain + rest == [c] + (tail + rest) && plain == [c] + tail;
      assert forall i :: 0 <= i < |tail| ==> tail[i] == plain[i + 1];
      UnescapePlainPrefix(tail, rest);
      UnescapePlainByte(c, tail + rest);
      PrependTwice([c], tail, QueryUnescape(rest));
    }
  }

  lemma UnescapeEscapedByte(c: byte, rest: seq<byte>)
    ensures QueryUnescape(EscapeByte(c) + rest) == PrependTo([c], QueryUnescape(rest))
  {
    var e := EscapeByte(c);
    if Unreserved(c) || c == Space {
      assert (e + rest)[1..] == rest;
    } else {
      assert (e + rest)[3..] == rest;
      assert c / 16 * 16 + c % 16 == c;
    }
  }

  /** QueryUnescape(QueryEscape(s)) gives back s exactly. */
  lemma {:induction false} UnescapeEscape(s: seq<byte>)
    ensures QueryUnescape(QueryEscape(s)) == Some(s)
    decreases |s|
  {
    if s != [] {
      var tail := QueryEscape(s[1..]);
      assert QueryEscape(s) == EscapeByte(s[0]) + tail;
      UnescapeEscapedByte(s[0], tail);
      UnescapeEscape(s[1..]);
      assert [s[0]] + s[1..] == s;
    }
  }
}
