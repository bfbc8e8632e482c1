/** PostgreSQL's text input for the `uuid` type. Every value the wishlist
    handlers compare with `deal_id`, or store into it, goes through this
    conversion. The input may use upper- or lower-case hex digits, may be
    wrapped in braces, and may leave out hyphens or put one after any group
    of four digits. Whatever the spelling, the value reads back in the
    standard form: 32 lower-case hex digits grouped 8-4-4-4-12. Any other
    text is refused, and the statement that carries it fails. */
module Uuid {
  import opened Schema

  predicate IsHex(c: char)
  {
    '0' <= c <= '9' || 'a' <= c <= 'f' || 'A' <= c <= 'F'
  }

  predicate IsLowerHex(c: char)
  {
    '0' <= c <= '9' || 'a' <= c <= 'f'
  }

  /** Upper-case hex letters become lower-case; every other character is
      left alone. */
  function LowerChar(c: char): char
  {
    if 'A' <= c <= 'F' then (c as int - 'A' as int + 'a' as int) as char else c
  }

  /** `s` with its upper-case hex letters lowered. */
  function LowerAll(s: string): (r: string)
    ensures |r| == |s|
  {
    seq(|s|, k requires 0 <= k < |s| => LowerChar(s[k]))
  }

  /** The positions of the four hyphens of the standard form. */
  predicate HyphenAt(p: int)
  {
    p == 8 || p == 13 || p == 18 || p == 23
  }

  /** The standard spelling: 36 characters, hyphens at the four group
      boundaries and lower-case hex digits everywhere else. */
  predicate Standard(s: string)
  {
    |s| == 36 && forall p :: 0 <= p < 36 ==> StandardChar(s, p)
  }

  /** Position `p` of `s` holds what the standard spelling puts there. */
  predicate StandardChar(s: string, p: int)
    requires 0 <= p < |s|
  {
    if HyphenAt(p) then s[p] == '-' else IsLowerHex(s[p])
  }

  /** Digits read so far, and the input left over. */
  datatype Parsed = Parsed(digits: string, rest: string)

  /** Reads the bytes `i` to 15 of the value, two hex digits each. After
      an odd-numbered byte other than the last, one hyphen may follow. */
  function ReadBytes(src: string, i: nat): (r: Option<Parsed>)
    requires i <= 16
    ensures r.Some? ==> |r.value.digits| == 2 * (16 - i)
    ensures r.Some? ==> forall k :: 0 <= k < |r.value.digits| ==> IsLowerHex(r.value.digits[k])
    decreases 16 - i
  {
    if i == 16 then Some(Parsed([], src))
    else if |src| < 2 || !IsHex(src[0]) || !IsHex(src[1]) then None
    else
      var after := src[2..];
      var next := if |after| > 0 && after[0] == '-' && i % 2 == 1 && i < 15 then after[1..] else after;
      match ReadBytes(next, i + 1)
      case None => None
      case Some(p) => Some(Parsed([LowerChar(src[0]), LowerChar(src[1])] + p.digits, p.rest))
  }

  /** The index among the 32 digits of the character at position `p` of
      the standard form. */
  function DigitIndex(p: int): int
  {
    p - (if p > 8 then 1 else 0) - (if p > 13 then 1 else 0) - (if p > 18 then 1 else 0) - (if p > 23 then 1 else 0)
  }

  /** The position in the standard form of the `k`-th digit. */
  function CharPos(k: int): int
  {
    k + (if k >= 8 then 1 else 0) + (if k >= 12 then 1 else 0) + (if k >= 16 then 1 else 0) + (if k >= 20 then 1 else 0)
  }

  /** 32 lower-case digits laid out in the 8-4-4-4-12 groups. */
  function Format(digits: string): (r: string)
    requires |digits| == 32 && forall k :: 0 <= k < 32 ==> IsLowerHex(digits[k])
    ensures Standard(r)
    ensures forall k :: 0 <= k < 32 ==> r[CharPos(k)] == digits[k]
  {
    seq(36, p requires 0 <= p < 36 => if HyphenAt(p) then '-' else digits[DigitIndex(p)])
  }

  /** The hex digits of a text in order and lowered, with braces and
      hyphens dropped: what a spelling says about the value it denotes. */
  function HexDigits(s: string): string
  {
    if |s| == 0 then []
    else (if s[0] == '{' || s[0] == '}' || s[0] == '-' then [] else [LowerChar(s[0])]) + HexDigits(s[1..])
  }

  /** The value a text denotes, in the standard spelling, or `None` when
      the `uuid` type refuses the text. */
  function Canonical(s: string): (r: Option<string>)
    ensures r.Some? ==> Standard(r.value)
  {
    var braced := |s| > 0 && s[0] == '{';
    var body := if braced then s[1..] else s;
    match ReadBytes(body, 0)
    case None => None
    case Some(p) => if p.rest == (if braced then "}" else "") then Some(Format(p.digits)) else None
  }

  /** An accepted text denotes the value whose digits are the text's own
      hex digits, in order and lowered. */
  lemma CanonicalDigits(s: string)
    requires Canonical(s).Some?
    ensures StdDigits(Canonical(s).value) == HexDigits(s)
  {
    var braced := |s| > 0 && s[0] == '{';
    var body := if braced then s[1..] else s;
    ReadDigits(body, 0);
    BodyDigits(s);
    FormatDigits(ReadBytes(body, 0).value.digits);
  }

  /** The reader's digits are the hex digits of the text it consumed: the
      text's hex digits are the digits read followed by those of what is
      left over. */
  lemma {:induction false} ReadDigits(src: string, i: nat)
    requires i <= 16
    ensures ReadBytes(src, i).Some? ==>
      HexDigits(src) == ReadBytes(src, i).value.digits + HexDigits(ReadBytes(src, i).value.rest)
    decreases 16 - i
  {
    if i < 16 && |src| >= 2 && IsHex(src[0]) && IsHex(src[1]) {
      var after := src[2..];
      var next := if |after| > 0 && after[0] == '-' && i % 2 == 1 && i < 15 then after[1..] else after;
      assert src[1..][1..] == after;
      assert HexDigits(src) == [LowerChar(src[0]), LowerChar(src[1])] + HexDigits(after);
      if next != after {
        assert HexDigits(after) == HexDigits(next);
      }
      ReadDigits(next, i + 1);
    }
  }

  /** An opening brace contributes no digit, and neither does the closing
      brace. */
  lemma BodyDigits(s: string)
    ensures |s| > 0 && s[0] == '{' ==> HexDigits(s) == HexDigits(s[1..])
    ensures HexDigits("}") == [] && HexDigits("") == []
  {
    assert "}"[1..] == "";
  }

  /** The digits of a laid-out value are the digits it was laid out from. */
  lemma FormatDigits(digits: string)
    requires |digits| == 32 && forall k :: 0 <= k < 32 ==> IsLowerHex(digits[k])
    ensures StdDigits(Format(digits)) == digits
  {
  }

  /** The character offset of byte `i` within the standard form. */
  function BytePos(i: int): int
  {
    CharPos(2 * i)
  }

  /** Where byte `i` and the character after it sit in the standard form:
      both are digits, and a hyphen follows exactly bytes 3, 5, 7 and 9. */
  lemma BytePosFacts(i: int)
    requires 0 <= i < 16
    ensures 0 <= BytePos(i) && BytePos(i) + 2 <= 36
    ensures !HyphenAt(BytePos(i)) && !HyphenAt(BytePos(i) + 1)
    ensures i == 3 || i == 5 || i == 7 || i == 9 ==> HyphenAt(BytePos(i) + 2) && BytePos(i + 1) == BytePos(i) + 3
    ensures !(i == 3 || i == 5 || i == 7 || i == 9) ==> BytePos(i + 1) == BytePos(i) + 2 && (i < 15 ==> !HyphenAt(BytePos(i) + 2))
    ensures CharPos(2 * i) == BytePos(i) && CharPos(2 * i + 1) == BytePos(i) + 1
  {
  }

  /** What a standard spelling holds at position `p`. */
  lemma StandardAt(c: string, p: int)
    requires Standard(c) && 0 <= p < 36
    ensures HyphenAt(p) ==> c[p] == '-'
    ensures !HyphenAt(p) ==> IsLowerHex(c[p]) && LowerChar(c[p]) == c[p]
  {
    assert StandardChar(c, p);
  }

  /** One step of the reader on a standard spelling: byte `i` is its two
      digits as they stand, and the reader goes on at byte `i + 1`. */
  lemma ReadStep(c: string, i: nat)
    requires Standard(c) && i < 16
    ensures 0 <= BytePos(i) && BytePos(i) + 2 <= BytePos(i + 1) <= 36
    ensures ReadBytes(c[BytePos(i + 1)..], i + 1).Some? ==>
      ReadBytes(c[BytePos(i)..], i) == Some(Parsed([c[BytePos(i)], c[BytePos(i) + 1]] + ReadBytes(c[BytePos(i + 1)..], i + 1).value.digits,
                                                   ReadBytes(c[BytePos(i + 1)..], i + 1).value.rest))
  {
    BytePosFacts(i);
    var q := BytePos(i);
    var src := c[q..];
    StandardAt(c, q);
    StandardAt(c, q + 1);
    var after := src[2..];
    var next := if |after| > 0 && after[0] == '-' && i % 2 == 1 && i < 15 then after[1..] else after;
    if q + 2 < 36 {
      StandardAt(c, q + 2);
    }
    assert next == c[BytePos(i + 1)..];
  }

  /** The 32 digits of a standard spelling, hyphens left out. */
  function StdDigits(c: string): (r: string)
    requires Standard(c)
    ensures |r| == 32
  {
    seq(32, k requires 0 <= k < 32 => c[CharPos(k)])
  }

  /** Reading a standard spelling from byte `i` on takes every digit as it
      stands and consumes the whole text. */
  lemma {:induction false} ReadStandard(c: string, i: nat)
    requires Standard(c) && i <= 16
    ensures 0 <= BytePos(i) <= 36
    ensures ReadBytes(c[BytePos(i)..], i) == Some(Parsed(StdDigits(c)[2 * i..], []))
    decreases 16 - i
  {
    if i < 16 {
      ReadStep(c, i);
      ReadStandard(c, i + 1);
      DigitsSplit(c, i);
    } else {
      assert BytePos(16) == 36 && c[36..] == [] && StdDigits(c)[32..] == [];
    }
  }

  /** The digits from byte `i` on are byte `i`'s two characters followed
      by the digits from byte `i + 1` on. */
  lemma DigitsSplit(c: string, i: nat)
    requires Standard(c) && i < 16
    ensures 0 <= BytePos(i) && BytePos(i) + 1 < 36
    ensures StdDigits(c)[2 * i..] == [c[BytePos(i)], c[BytePos(i) + 1]] + StdDigits(c)[2 * (i + 1)..]
  {
    BytePosFacts(i);
    var d := StdDigits(c);
    assert d[2 * i] == c[CharPos(2 * i)];
    assert d[2 * i + 1] == c[CharPos(2 * i + 1)];
    var tail := d[2 * (i + 1)..];
    var split := [d[2 * i], d[2 * i + 1]] + tail;
    assert |d[2 * i..]| == |split|;
    forall k | 0 <= k < |split|
      ensures d[2 * i..][k] == split[k]
    {
      if k >= 2 {
        assert split[k] == tail[k - 2];
      }
    }
    assert d[2 * i..] == split;
  }

  /** Every digit position is a non-hyphen position. */
  lemma CharPosIsDigit(k: int)
    requires 0 <= k < 32
    ensures 0 <= CharPos(k) < 36 && !HyphenAt(CharPos(k))
  {
  }

  /** `DigitIndex` undoes `CharPos` on the non-hyphen positions. */
  lemma DigitIndexInverse(p: int)
    requires 0 <= p < 36 && !HyphenAt(p)
    ensures 0 <= DigitIndex(p) < 32 && CharPos(DigitIndex(p)) == p
  {
  }

  /** Laying the digits of a standard spelling out again gives it back. */
  lemma FormatStdDigits(c: string)
    requires Standard(c)
    ensures forall k :: 0 <= k < 32 ==> IsLowerHex(StdDigits(c)[k])
    ensures Format(StdDigits(c)) == c
  {
    var ds := StdDigits(c);
    forall k | 0 <= k < 32
      ensures IsLowerHex(ds[k])
    {
      CharPosIsDigit(k);
      StandardAt(c, CharPos(k));
    }
    var r := Format(ds);
    forall p | 0 <= p < 36
      ensures r[p] == c[p]
    {
      StandardAt(c, p);
      if !HyphenAt(p) {
        DigitIndexInverse(p);
      }
    }
  }

  /** A text already in the standard spelling denotes itself: stored ids
      read back unchanged and match their own spelling. */
  lemma StandardIsFixed(c: string)
    requires Standard(c)
    ensures Canonical(c) == Some(c)
  {
    StandardAt(c, 0);
    ReadStandard(c, 0);
    assert c[BytePos(0)..] == c && StdDigits(c)[0..] == StdDigits(c);
    FormatStdDigits(c);
  }

  /** Two accepted texts denote the same value exactly when they have the
      same hex digits: braces, hyphens and case do not matter, and every
      digit does. */
  lemma SameDigitsSameValue(s: string, t: string)
    ensures Canonical(s).Some? && Canonical(t).Some? ==>
      (Canonical(s) == Canonical(t) <==> HexDigits(s) == HexDigits(t))
  {
    if Canonical(s).Some? && Canonical(t).Some? {
      CanonicalDigits(s);
      CanonicalDigits(t);
      FormatStdDigits(Canonical(s).value);
      FormatStdDigits(Canonical(t).value);
    }
  }

  /** Converting twice gives what converting once gives. */
  lemma CanonicalIdempotent(s: string)
    requires Canonical(s).Some?
    ensures Canonical(Canonical(s).value) == Canonical(s)
  {
    StandardIsFixed(Canonical(s).value);
  }

  /** Lowering the case of the input changes nothing the byte reader
      decides: it fails on the same inputs, yields the same digits, and
      leaves the lowered remainder. */
  lemma {:induction false} ReadBytesIgnoresCase(s: string, i: nat)
    requires i <= 16
    ensures ReadBytes(s, i).None? <==> ReadBytes(LowerAll(s), i).None?
    ensures ReadBytes(s, i).Some? ==>
      && ReadBytes(LowerAll(s), i).value.digits == ReadBytes(s, i).value.digits
      && ReadBytes(LowerAll(s), i).value.rest == LowerAll(ReadBytes(s, i).value.rest)
    decreases 16 - i
  {
    var t := LowerAll(s);
    if i < 16 && |s| >= 2 {
      assert t[0] == LowerChar(s[0]) && t[1] == LowerChar(s[1]);
      var after := s[2..];
      var next := if |after| > 0 && after[0] == '-' && i % 2 == 1 && i < 15 then after[1..] else after;
      var tAfter := t[2..];
      assert tAfter == LowerAll(after);
      var tNext := if |tAfter| > 0 && tAfter[0] == '-' && i % 2 == 1 && i < 15 then tAfter[1..] else tAfter;
      assert tNext == LowerAll(next) by {
        if |after| > 0 {
          assert tAfter[0] == LowerChar(after[0]);
          assert tAfter[1..] == LowerAll(after[1..]);
        }
      }
      ReadBytesIgnoresCase(next, i + 1);
    }
  }

  /** Lowering never makes or unmakes the closing brace or the empty text,
      nor the opening brace at the front. */
  lemma LowerKeepsBraces(r: string)
    ensures LowerAll(r) == "}" <==> r == "}"
    ensures LowerAll(r) == [] <==> r == []
    ensures (|r| > 0 && r[0] == '{') <==> (|LowerAll(r)| > 0 && LowerAll(r)[0] == '{')
    ensures |r| > 0 ==> LowerAll(r)[1..] == LowerAll(r[1..])
  {
    if |r| > 0 {
      assert LowerAll(r)[0] == LowerChar(r[0]);
    }
  }

  /** The case of the hex digits does not matter: a text and its lowered
      form denote the same value, or are both refused. */
  lemma CanonicalIgnoresCase(s: string)
    ensures Canonical(LowerAll(s)) == Canonical(s)
  {
    var braced := |s| > 0 && s[0] == '{';
    var body := if braced then s[1..] else s;
    LowerKeepsBraces(s);
    ReadBytesIgnoresCase(body, 0);
    if ReadBytes(body, 0).Some? {
      LowerKeepsBraces(ReadBytes(body, 0).value.rest);
    }
  }
}
