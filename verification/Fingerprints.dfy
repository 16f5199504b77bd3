/** Full GPG fingerprints: 40 or 64 hexadecimal digits. */
module Fingerprints {
  predicate IsHex(c: char) {
    '0' <= c <= '9' || 'A' <= c <= 'F' || 'a' <= c <= 'f'
  }

  predicate ValidFingerprint(s: string) {
    (|s| == 40 || |s| == 64) && forall i :: 0 <= i < |s| ==> IsHex(s[i])
  }

  /** Forty or sixty-four digits, in either case. */
  lemma FullFingerprint(s: string)
    ensures ValidFingerprint(s) <==> |s| in {40, 64} && forall c :: c in s ==> c in "0123456789abcdefABCDEF"
  {
    forall c: char ensures IsHex(c) <==> c in "0123456789abcdefABCDEF" { HexDigits(c); }
    assert forall i :: 0 <= i < |s| ==> s[i] in s;
  }

  lemma HexDigits(c: char)
    ensures IsHex(c) <==> c in "0123456789abcdefABCDEF"
  {
    var digits := "0123456789abcdefABCDEF";
    if '0' <= c <= '9' {
      assert digits[c as int - '0' as int] == c;
    } else if 'a' <= c <= 'f' {
      assert digits[10 + c as int - 'a' as int] == c;
    } else if 'A' <= c <= 'F' {
      assert digits[16 + c as int - 'A' as int] == c;
    }
  }
}
