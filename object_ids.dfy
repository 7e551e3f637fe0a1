/**
 * MongoDB ObjectIds and their string form.
 *
 * An ObjectId is twelve bytes; `str(ObjectId)` writes them as 24 lower-case
 * hexadecimal digits, and building an ObjectId from a string (what a query
 * `objects(id=...)` does with the decoded message body) is modelled as
 * accepting exactly 24 hexadecimal digits of either case; the producer only
 * ever writes bodies of that form.
 */
module ObjectIds {
  import opened Wrappers

  /** Number of hexadecimal digits in the string form of an ObjectId. */
  const IdDigits: nat := 24

  /** 2^96: there are exactly this many twelve-byte ObjectIds. */
  const IdSpace: nat := 0x1_0000_0000_0000_0000_0000_0000

  type ObjectId = n: nat | n < IdSpace

  const LowerHexDigits: string := "0123456789abcdef"

  function Pow16(k: nat): (p: nat)
    ensures p >= 1
  {
    if k == 0 then 1 else 16 * Pow16(k - 1)
  }

  lemma {:induction false} Pow16Add(a: nat, b: nat)
    ensures Pow16(a + b) == Pow16(a) * Pow16(b)
  {
    if a > 0 {
      Pow16Add(a - 1, b);
      assert Pow16(a + b) == 16 * Pow16(a - 1 + b);
    }
  }

  /** Twenty-four hexadecimal digits span exactly the twelve-byte ids. */
  lemma IdSpaceDigits()
    ensures Pow16(IdDigits) == IdSpace
  {
    assert Pow16(8) == 0x1_0000_0000;
    Pow16Add(8, 8);
    Pow16Add(16, 8);
  }

  /** Value of one hexadecimal digit, upper or lower case. */
  function DigitValue(c: char): (d: Option<nat>)
    ensures d.Some? ==> d.value < 16
    ensures d.Some? <==> ('0' <= c <= '9' || 'a' <= c <= 'f' || 'A' <= c <= 'F')
  {
    if '0' <= c <= '9' then Some(c as nat - '0' as nat)
    else if 'a' <= c <= 'f' then Some(c as nat - 'a' as nat + 10)
    else if 'A' <= c <= 'F' then Some(c as nat - 'A' as nat + 10)
    else None
  }

  lemma LowerDigitValue(d: nat)
    requires d < 16
    ensures DigitValue(LowerHexDigits[d]) == Some(d)
  {
  }

  /** The `width` low-order hexadecimal digits of `n`, most significant first, lower case. */
  function ToHex(n: nat, width: nat): (s: string)
    ensures |s| == width
  {
    if width == 0 then "" else ToHex(n / 16, width - 1) + [LowerHexDigits[n % 16]]
  }

  lemma {:induction false} ToHexLowerCase(n: nat, width: nat)
    ensures forall i :: 0 <= i < width ==> ToHex(n, width)[i] in LowerHexDigits
  {
    if width > 0 {
      ToHexLowerCase(n / 16, width - 1);
      var s := ToHex(n, width);
      assert s == ToHex(n / 16, width - 1) + [LowerHexDigits[n % 16]];
    }
  }

  /** Big-endian value of a string of hexadecimal digits; None if any character is not one. */
  function FromHex(s: string): (r: Option<nat>)
    ensures r.Some? ==> r.value < Pow16(|s|)
    ensures r.Some? <==> forall i :: 0 <= i < |s| ==> DigitValue(s[i]).Some?
  {
    if s == [] then Some(0)
    else
      var prefix := FromHex(s[..|s| - 1]);
      var last := DigitValue(s[|s| - 1]);
      if prefix.None? || last.None? then
        None
      else
        assert prefix.value * 16 + last.value < Pow16(|s|) by {
          assert prefix.value <= Pow16(|s| - 1) - 1;
          assert prefix.value * 16 <= Pow16(|s| - 1) * 16 - 16;
        }
        Some(prefix.value * 16 + last.value)
  }

  /** Reading back `width` hexadecimal digits of a number that fits gives that number. */
  lemma {:induction false} FromHexToHex(n: nat, width: nat)
    requires n < Pow16(width)
    ensures FromHex(ToHex(n, width)) == Some(n)
  {
    if width > 0 {
      var s := ToHex(n, width);
      assert s[..|s| - 1] == ToHex(n / 16, width - 1);
      assert n / 16 < Pow16(width - 1);
      FromHexToHex(n / 16, width - 1);
      LowerDigitValue(n % 16);
    }
  }

  /** A hexadecimal digit in lower case; every other character as it is. */
  function LowerDigit(c: char): (l: char)
    ensures DigitValue(l) == DigitValue(c)
    ensures !('A' <= l <= 'F')
  {
    if 'A' <= c <= 'F' then (c as int - 'A' as int + 'a' as int) as char else c
  }

  /** `s.lower()` on a string of hexadecimal digits. */
  function LowerCase(s: string): (r: string)
    ensures |r| == |s|
    ensures forall i :: 0 <= i < |s| ==> r[i] == LowerDigit(s[i])
  {
    seq(|s|, i requires 0 <= i < |s| => LowerDigit(s[i]))
  }

  /** The lower-case digit written for a digit's value is that digit in lower case. */
  lemma DigitLower(c: char, d: nat)
    requires DigitValue(c) == Some(d)
    ensures LowerHexDigits[d] == LowerDigit(c)
  {
    LowerDigitValue(d);
    assert !('A' <= LowerHexDigits[d] <= 'F');
  }

  /**
   * Writing back the value of a string of hexadecimal digits, at its own
   * width, gives the string in lower case.
   */
  lemma {:induction false} ToHexFromHex(s: string)
    requires FromHex(s).Some?
    ensures ToHex(FromHex(s).value, |s|) == LowerCase(s)
  {
    if s != [] {
      var front := s[..|s| - 1];
      var p := FromHex(front).value;
      var d := DigitValue(s[|s| - 1]).value;
      var v := FromHex(s).value;
      assert v == p * 16 + d;
      assert v / 16 == p && v % 16 == d;
      ToHexFromHex(front);
      DigitLower(s[|s| - 1], d);
      assert LowerCase(s) == LowerCase(front) + [LowerDigit(s[|s| - 1])];
    }
  }

  /** `str(ObjectId)`: the 24 lower-case hexadecimal digits of the id. */
  function IdString(id: ObjectId): (s: string)
    ensures |s| == IdDigits
  {
    ToHex(id, IdDigits)
  }

  /** `ObjectId(s)`: accepted exactly when `s` is 24 hexadecimal digits. */
  function ParseObjectId(s: string): (r: Option<ObjectId>)
    ensures r.Some? <==> |s| == IdDigits && forall i :: 0 <= i < |s| ==> DigitValue(s[i]).Some?
  {
    if |s| != IdDigits then None
    else
      IdSpaceDigits();
      match FromHex(s)
      case None => None
      case Some(v) => Some(v)
  }

  /** The message body the producer writes is read back as the same id by the consumer. */
  lemma ParseIdString(id: ObjectId)
    ensures ParseObjectId(IdString(id)) == Some(id)
  {
    IdSpaceDigits();
    FromHexToHex(id, IdDigits);
  }

  /** An id read from a body prints back as that body in lower case. */
  lemma IdStringOfParsed(s: string, id: ObjectId)
    requires ParseObjectId(s) == Some(id)
    ensures IdString(id) == LowerCase(s)
  {
    ToHexFromHex(s);
  }

  /** The case of the digits does not change which id a body names, or whether it names one. */
  lemma ParseIgnoresCase(s: string)
    ensures ParseObjectId(LowerCase(s)) == ParseObjectId(s)
  {
    if ParseObjectId(s).Some? {
      IdStringOfParsed(s, ParseObjectId(s).value);
      ParseIdString(ParseObjectId(s).value);
    } else if |s| == IdDigits {
      var i :| 0 <= i < |s| && DigitValue(s[i]).None?;
      assert DigitValue(LowerCase(s)[i]).None?;
    }
  }

  /** `str(ObjectId)` writes lower-case digits only. */
  lemma IdStringLowerCase(id: ObjectId)
    ensures forall i :: 0 <= i < |IdString(id)| ==> IdString(id)[i] in LowerHexDigits
  {
    ToHexLowerCase(id, IdDigits);
  }

  /** Distinct ids have distinct string forms, so a message body names one contact. */
  lemma IdStringInjective(a: ObjectId, b: ObjectId)
    requires IdString(a) == IdString(b)
    ensures a == b
  {
    ParseIdString(a);
    ParseIdString(b);
  }
}
