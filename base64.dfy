/**
 * Base64 per section 4 of RFC 4648, as Go's base64.StdEncoding encodes and
 * decodes it: padded output; on input, CR and LF are skipped anywhere, the
 * remaining length must be a multiple of four, '=' may only end the last
 * quantum, and unused low bits of the last symbol are not checked.
 */
module Base64 {
  import opened Wrappers
  import opened Text

  const Pad: byte := 61 // '='

  /** The symbol of a 6-bit value: A-Z, a-z, 0-9, '+', '/'. */
  function Symbol(v: int): (c: byte)
    requires 0 <= v < 64
    ensures SymbolValue(c) == Some(v)
  {
    if v < 26 then 65 + v
    else if v < 52 then 71 + v
    else if v < 62 then v - 4
    else if v == 62 then 43
    else 47
  }

  /** The decoding table: the value of a symbol, None for any other byte. */
  function SymbolValue(c: byte): Option<int>
  {
    if 65 <= c <= 90 then Some(c - 65)
    else if 97 <= c <= 122 then Some(c - 71)
    else if 48 <= c <= 57 then Some(c + 4)
    else if c == 43 then Some(62)
    else if c == 47 then Some(63)
    else None
  }

  predicate IsSymbol(c: byte)
  {
    SymbolValue(c).Some?
  }

  /** Symbol values are 6-bit and symbols are never CR, LF or '='. */
  lemma SymbolValueRange(c: byte)
    requires IsSymbol(c)
    ensures 0 <= SymbolValue(c).value < 64 && Symbol(SymbolValue(c).value) == c
    ensures c != 10 && c != 13 && c != Pad
  {
  }

  /** Symbols throughout, with '=' only in the last two places and then always last. */
  predicate Padded(s: seq<byte>)
  {
    forall i :: 0 <= i < |s| ==> IsSymbol(s[i]) || (s[i] == Pad && |s| - 2 <= i && s[|s| - 1] == Pad)
  }

  /** EncodeToString: each group of three bytes becomes four symbols; a short last group is padded. */
  function Encode(b: seq<byte>): (s: seq<byte>)
    ensures |s| == 4 * ((|b| + 2) / 3)
    ensures Padded(s)
    decreases |b|
  {
    if |b| == 0 then []
    else if |b| == 1 then [Symbol(b[0] / 4), Symbol(b[0] % 4 * 16), Pad, Pad]
    else if |b| == 2 then [Symbol(b[0] / 4), Symbol(b[0] % 4 * 16 + b[1] / 16), Symbol(b[1] % 16 * 4), Pad]
    else
      var group := [Symbol(b[0] / 4), Symbol(b[0] % 4 * 16 + b[1] / 16), Symbol(b[1] % 16 * 4 + b[2] / 64), Symbol(b[2] % 64)];
      var rest := Encode(b[3..]);
      PaddedAfterSymbols(group, rest);
      group + rest
  }

  /** Symbols in front of a padded sequence keep it padded. */
  lemma PaddedAfterSymbols(group: seq<byte>, rest: seq<byte>)
    requires forall i :: 0 <= i < |group| ==> IsSymbol(group[i])
    requires Padded(rest)
    ensures Padded(group + rest)
  {
    var s := group + rest;
    forall i | 0 <= i < |s| ensures IsSymbol(s[i]) || (s[i] == Pad && |s| - 2 <= i && s[|s| - 1] == Pad) {
      if i >= |group| {
        assert s[i] == rest[i - |group|];
        assert s[|s| - 1] == rest[|rest| - 1];
      }
    }
  }

  /** The decoder skips carriage returns and line feeds wherever they appear. */
  function SkipNewlines(s: seq<byte>): (r: seq<byte>)
    ensures |r| <= |s|
    ensures forall i :: 0 <= i < |r| ==> r[i] != 10 && r[i] != 13
    ensures (forall i :: 0 <= i < |s| ==> s[i] != 10 && s[i] != 13) ==> r == s
    decreases |s|
  {
    if s == [] then []
    else if s[0] == 10 || s[0] == 13 then SkipNewlines(s[1..])
    else [s[0]] + SkipNewlines(s[1..])
  }

  /** One quantum of four characters; only the last one may carry padding. */
  function DecodeQuantum(c0: byte, c1: byte, c2: byte, c3: byte, last: bool): (r: Option<seq<byte>>)
    ensures r.Some? ==> 1 <= |r.value| <= 3 && (!last ==> |r.value| == 3)
  {
    match (SymbolValue(c0), SymbolValue(c1))
    case (Some(v0), Some(v1)) =>
      var b0 := v0 * 4 + v1 / 16;
      if c2 == Pad then
        if c3 == Pad && last then Some([b0]) else None
      else (
        match SymbolValue(c2)
        case None => None
        case Some(v2) =>
          var b1 := v1 % 16 * 16 + v2 / 4;
          if c3 == Pad then
            if last then Some([b0, b1]) else None
          else (
            match SymbolValue(c3)
            case None => None
            case Some(v3) => Some([b0, b1, v2 % 4 * 64 + v3])
          )
      )
    case _ => None
  }

  /** Quanta of four symbols: three bytes each, the last one one to three. */
  function DecodeQuanta(s: seq<byte>): (r: Option<seq<byte>>)
    ensures r.Some? ==> |s| % 4 == 0 && |s| / 4 * 3 - 2 <= |r.value| <= |s| / 4 * 3
    decreases |s|
  {
    if s == [] then Some([])
    else if |s| < 4 then None
    else
      match DecodeQuantum(s[0], s[1], s[2], s[3], |s| == 4)
      case None => None
      case Some(head) =>
        match DecodeQuanta(s[4..])
        case None => None
        case Some(tail) => Some(head + tail)
  }

  /** DecodeString: None stands for a CorruptInputError. */
  function Decode(s: seq<byte>): (r: Option<seq<byte>>)
    ensures r.Some? ==> |r.value| <= |s| / 4 * 3
  {
    DecodeQuanta(SkipNewlines(s))
  }

  lemma {:induction false} EncodeHasNoNewlines(b: seq<byte>)
    ensures forall i :: 0 <= i < |Encode(b)| ==> Encode(b)[i] != 10 && Encode(b)[i] != 13
  {
    var s := Encode(b);
    forall i | 0 <= i < |s| ensures s[i] != 10 && s[i] != 13 {
      if IsSymbol(s[i]) { SymbolValueRange(s[i]); }
    }
  }

  /** Three bytes survive a trip through four symbols. */
  lemma GroupRoundTrip(b0: byte, b1: byte, b2: byte)
    ensures DecodeQuantum(Symbol(b0 / 4), Symbol(b0 % 4 * 16 + b1 / 16), Symbol(b1 % 16 * 4 + b2 / 64), Symbol(b2 % 64), true)
            == Some([b0, b1, b2])
    ensures DecodeQuantum(Symbol(b0 / 4), Symbol(b0 % 4 * 16 + b1 / 16), Symbol(b1 % 16 * 4 + b2 / 64), Symbol(b2 % 64), false)
            == Some([b0, b1, b2])
  {
    assert (b0 % 4 * 16 + b1 / 16) / 16 == b0 % 4;
    assert (b0 % 4 * 16 + b1 / 16) % 16 == b1 / 16;
    assert (b1 % 16 * 4 + b2 / 64) / 4 == b1 % 16;
    assert (b1 % 16 * 4 + b2 / 64) % 4 == b2 / 64;
  }

  /** Decoding the output of Encode gives back exactly the encoded bytes. */
  lemma {:induction false} DecodeEncode(b: seq<byte>)
    ensures Decode(Encode(b)) == Some(b)
  {
    EncodeHasNoNewlines(b);
    DecodeQuantaEncode(b);
  }

  lemma {:induction false} DecodeQuantaEncode(b: seq<byte>)
    ensures DecodeQuanta(Encode(b)) == Some(b)
    decreases |b|
  {
    if |b| == 1 {
      OneByteRoundTrip(b[0]);
      assert b == [b[0]];
    } else if |b| == 2 {
      TwoBytesRoundTrip(b[0], b[1]);
      assert b == [b[0], b[1]];
    } else if |b| >= 3 {
      var s := Encode(b);
      assert s[4..] == Encode(b[3..]);
      GroupRoundTrip(b[0], b[1], b[2]);
      DecodeQuantaEncode(b[3..]);
      DecodeQuantaFirst(s, [b[0], b[1], b[2]], b[3..]);
      FirstThree(b);
    }
  }

  /** A decoded first quantum followed by decoded quanta. */
  lemma DecodeQuantaFirst(s: seq<byte>, head: seq<byte>, tail: seq<byte>)
    requires |s| >= 4 && DecodeQuantum(s[0], s[1], s[2], s[3], |s| == 4) == Some(head)
    requires DecodeQuanta(s[4..]) == Some(tail)
    ensures DecodeQuanta(s) == Some(head + tail)
  {
  }

  lemma FirstThree<T>(b: seq<T>)
    requires |b| >= 3
    ensures [b[0], b[1], b[2]] + b[3..] == b
  {
  }

  lemma OneByteRoundTrip(b0: byte)
    ensures DecodeQuanta(Encode([b0])) == Some([b0])
  {
    var s := Encode([b0]);
    assert (b0 % 4 * 16) / 16 == b0 % 4;
    assert |s| == 4;
    assert DecodeQuantum(s[0], s[1], s[2], s[3], true) == Some([b0]);
    assert DecodeQuanta(s[4..]) == Some([]);
    assert [b0] + [] == [b0];
  }

  lemma TwoBytesRoundTrip(b0: byte, b1: byte)
    ensures DecodeQuanta(Encode([b0, b1])) == Some([b0, b1])
  {
    var s := Encode([b0, b1]);
    assert (b0 % 4 * 16 + b1 / 16) / 16 == b0 % 4;
    assert (b0 % 4 * 16 + b1 / 16) % 16 == b1 / 16;
    assert (b1 % 16 * 4) / 4 == b1 % 16;
    assert DecodeQuantum(s[0], s[1], s[2], s[3], true) == Some([b0, b1]);
    assert s[4..] == [];
    assert [b0, b1] + [] == [b0, b1];
  }

  /** Every byte outside the alphabet, other than CR, LF and trailing '=', makes decoding fail. */
  lemma {:induction false} DecodeRejectsForeignByte(s: seq<byte>, i: int)
    requires 0 <= i < |s| && !IsSymbol(s[i]) && s[i] != Pad && s[i] != 10 && s[i] != 13
    ensures Decode(s).None?
  {
    var t, k := ForeignByteSurvives(s, i);
    DecodeQuantaRejects(t, k);
  }

  lemma {:induction false} ForeignByteSurvives(s: seq<byte>, i: int) returns (t: seq<byte>, k: int)
    requires 0 <= i < |s| && s[i] != 10 && s[i] != 13
    ensures t == SkipNewlines(s) && 0 <= k < |t| && t[k] == s[i]
    decreases |s|
  {
    t := SkipNewlines(s);
    if i == 0 {
      k := 0;
    } else {
      var t', k' := ForeignByteSurvives(s[1..], i - 1);
      if s[0] == 10 || s[0] == 13 {
        k := k';
      } else {
        k := k' + 1;
      }
    }
  }

  lemma {:induction false} DecodeQuantaRejects(t: seq<byte>, k: int)
    requires 0 <= k < |t| && !IsSymbol(t[k]) && t[k] != Pad
    ensures DecodeQuanta(t).None?
    decreases |t|
  {
    if |t| >= 4 && k >= 4 {
      DecodeQuantaRejects(t[4..], k - 4);
    }
  }
}
