// base58btc of gateway/src/hosting/targets.ts and base58Decode of gateway/src/server.ts: two
// carry loops that undo each other.
module Base58 {
  import Sorting
  import opened Bytes
  import opened Radix

  const ALPHABET := "123456789" + "ABCDEFGH" + "JKLMN" + "PQRSTUVWXYZ" + "abcdefghijk" + "mnopqrstuvwxyz"

  // ALPHABET.indexOf(c)
  function IndexOf(c: char): int {
    if '1' <= c <= '9' then c as int - '1' as int
    else if 'A' <= c <= 'H' then c as int - 'A' as int + 9
    else if 'J' <= c <= 'N' then c as int - 'J' as int + 17
    else if 'P' <= c <= 'Z' then c as int - 'P' as int + 22
    else if 'a' <= c <= 'k' then c as int - 'a' as int + 33
    else if 'm' <= c <= 'z' then c as int - 'm' as int + 44
    else -1
  }

  function Run(c: char, n: nat): (r: string)
    requires c as int + n < 0xD800
    ensures |r| == n && forall i :: 0 <= i < n ==> r[i] as int == c as int + i
  {
    seq(n, i requires 0 <= i < n => (c as int + i) as char)
  }

  lemma AlphabetRuns()
    ensures ALPHABET == Run('1', 9) + Run('A', 8) + Run('J', 5) + Run('P', 11) + Run('a', 11) + Run('m', 14)
  {
    assert Run('1', 9) == "123456789" && Run('A', 8) == "ABCDEFGH" && Run('J', 5) == "JKLMN";
    assert Run('P', 11) == "PQRSTUVWXYZ" && Run('a', 11) == "abcdefghijk" && Run('m', 14) == "mnopqrstuvwxyz";
  }

  lemma LetterIndexed(d: nat)
    requires d < 58
    ensures |ALPHABET| == 58 && IndexOf(ALPHABET[d]) == d
    ensures d == 0 <==> ALPHABET[d] == '1'
  {
    AlphabetRuns();
  }

  // IndexOf finds every letter where the alphabet has it, and nothing else.
  lemma AlphabetIndexed(c: char)
    ensures |ALPHABET| == 58
    ensures IndexOf(c) == -1 || (0 <= IndexOf(c) < 58 && ALPHABET[IndexOf(c)] == c)
    ensures IndexOf(c) == 0 <==> c == '1'
  {
    hide Run;
    AlphabetRuns();
    RunsAt(c);
  }

  lemma RunsAt(c: char)
    ensures '1' <= c <= '9' ==> Run('1', 9)[c as int - '1' as int] == c
    ensures 'A' <= c <= 'H' ==> Run('A', 8)[c as int - 'A' as int] == c
    ensures 'J' <= c <= 'N' ==> Run('J', 5)[c as int - 'J' as int] == c
    ensures 'P' <= c <= 'Z' ==> Run('P', 11)[c as int - 'P' as int] == c
    ensures 'a' <= c <= 'k' ==> Run('a', 11)[c as int - 'a' as int] == c
    ensures 'm' <= c <= 'z' ==> Run('m', 14)[c as int - 'm' as int] == c
  {
  }

  function Letter(d: nat): char
    requires d < 58
  {
    LetterIndexed(d);
    ALPHABET[d]
  }

  function Letters(digits: seq<nat>): (r: string)
    requires DigitsOf(digits, 58)
    ensures |r| == |digits| && forall i :: 0 <= i < |r| ==> r[i] == Letter(digits[i])
  {
    seq(|digits|, i requires 0 <= i < |digits| => Letter(digits[i]))
  }

  predicate InAlphabet(s: string) {
    forall i :: 0 <= i < |s| ==> IndexOf(s[i]) >= 0
  }

  function Indices(s: string): (r: seq<nat>)
    requires InAlphabet(s)
    ensures |r| == |s| && DigitsOf(r, 58) && forall i :: 0 <= i < |r| ==> r[i] == IndexOf(s[i])
  {
    assert forall c :: IndexOf(c) < 58;
    seq(|s|, i requires 0 <= i < |s| => IndexOf(s[i]))
  }

  lemma LettersIndices(digits: seq<nat>)
    requires DigitsOf(digits, 58)
    ensures InAlphabet(Letters(digits)) && Indices(Letters(digits)) == digits
  {
    hide IndexOf;
    forall i | 0 <= i < |digits| ensures IndexOf(Letters(digits)[i]) == digits[i] {
      LetterIndexed(digits[i]);
    }
  }

  lemma IndicesLetters(s: string)
    requires InAlphabet(s)
    ensures Letters(Indices(s)) == s
  {
    hide IndexOf;
    forall i | 0 <= i < |s| ensures Letters(Indices(s))[i] == s[i] {
      AlphabetIndexed(s[i]);
    }
  }

  // ---------- what the two functions compute ----------

  function Encode(bytes: seq<Byte>): string {
    ConvertShape(bytes, 256, 58);
    Letters(Convert(bytes, 256, 58))
  }

  function Decode(input: string): Option<seq<Byte>> {
    if InAlphabet(input) then
      ConvertShape(Indices(input), 58, 256);
      Some(Convert(Indices(input), 58, 256))
    else None
  }

  // ---------- the loops ----------

  method Base58btc(bytes: seq<Byte>) returns (out: string)
    ensures out == Encode(bytes)
  {
    hide Value;
    hide Digits;
    hide CarryPass;
    hide Push;
    hide IndexOf;
    DigitsOfNothing(58);
    assert bytes[..0] == [];
    var digits: seq<nat> := [0];
    for k := 0 to |bytes|
      invariant digits == Digits(Value(bytes[..k], 256), 58)
    {
      var before := digits;
      var carry: nat := bytes[k];
      PassStarts(before, 256, 58, carry);
      for i := 0 to |digits|
        invariant |digits| == |before| && digits[i..] == before[i..]
        invariant CarryPass(before, 256, 58, bytes[k]) == digits[..i] + CarryPass(before[i..], 256, 58, carry)
      {
        var val := digits[i] * 256 + carry;
        StepOnce(digits, before, i, 256, 58, carry);
        digits := digits[i := val % 58];
        carry := val / 58;
      }
      PassDone(digits, before, 256, 58, bytes[k], carry);
      digits := PushCarry(digits, carry, 58);
      assert bytes[..k + 1] == bytes[..k] + [bytes[k]];
      ValuePush(bytes[..k], bytes[k], 256);
      StepIsMulAdd(Value(bytes[..k], 256), 256, 58, bytes[k]);
    }
    assert bytes[..|bytes|] == bytes;
    ConvertShape(bytes, 256, 58);
    out := Spell(LeadingZeros(bytes), digits);
  }

  method Spell(zeros: nat, digits: seq<nat>) returns (out: string)
    requires DigitsOf(digits, 58)
    ensures DigitsOf(Zeros(zeros) + Reverse(digits), 58) && out == Letters(Zeros(zeros) + Reverse(digits))
  {
    hide Reverse;
    hide Letter;
    out := "";
    for k := 0 to zeros
      invariant out == Letters(Zeros(k))
    {
      LetterZero();
      LettersPush(Zeros(k), 0);
      assert Zeros(k + 1) == Zeros(k) + [0];
      out := out + ['1'];
    }
    assert Zeros(zeros) + Reverse(digits)[..0] == Zeros(zeros);
    var i := |digits|;
    while i > 0
      invariant 0 <= i <= |digits| && DigitsOf(Reverse(digits)[..|digits| - i], 58)
      invariant out == Letters(Zeros(zeros) + Reverse(digits)[..|digits| - i])
    {
      i := i - 1;
      ReversePush(digits, i);
      LettersPush(Zeros(zeros) + Reverse(digits)[..|digits| - i - 1], digits[i]);
      Sorting.ConcatAssociative(Zeros(zeros), Reverse(digits)[..|digits| - i - 1], [digits[i]]);
      out := out + [Letter(digits[i])];
    }
    assert Reverse(digits)[..|digits|] == Reverse(digits);
  }

  lemma LetterZero()
    ensures Letter(0) == '1'
  {
    LetterIndexed(0);
  }

  lemma DigitsOfNothing(base: nat)
    requires base > 1
    ensures Digits(Value([], base), base) == [0] && forall b :: Digits(Value([], b), base) == [0]
  {
  }

  lemma PassDone(digits: seq<nat>, before: seq<nat>, mul: nat, base: nat, start: nat, carry: nat)
    requires base > 1 && |digits| == |before|
    requires CarryPass(before, mul, base, start) == digits[..|digits|] + CarryPass(before[|digits|..], mul, base, carry)
    ensures CarryPass(before, mul, base, start) == digits + Push(carry, base)
  {
    assert digits[..|digits|] == digits && before[|digits|..] == [];
  }

  lemma PassStarts(digits: seq<nat>, mul: nat, base: nat, carry: nat)
    requires base > 1
    ensures CarryPass(digits, mul, base, carry) == digits[..0] + CarryPass(digits[0..], mul, base, carry)
  {
    var pass := CarryPass(digits, mul, base, carry);
    assert digits[0..] == digits && digits[..0] + pass == pass;
  }

  lemma LettersPush(digits: seq<nat>, d: nat)
    requires DigitsOf(digits, 58) && d < 58
    ensures DigitsOf(digits + [d], 58) && Letters(digits + [d]) == Letters(digits) + [Letter(d)]
  {
    hide Letter;
  }

  lemma ReversePush(digits: seq<nat>, i: nat)
    requires i < |digits|
    ensures Reverse(digits)[..|digits| - i] == Reverse(digits)[..|digits| - i - 1] + [digits[i]]
    ensures forall base, j :: DigitsOf(digits, base) && 0 <= j <= |digits| ==> DigitsOf(Reverse(digits)[..j], base)
  {
  }

  lemma StepOnce(digits: seq<nat>, before: seq<nat>, i: nat, mul: nat, base: nat, carry: nat)
    requires base > 1 && i < |digits| == |before| && digits[i..] == before[i..]
    ensures var val := digits[i] * mul + carry;
            && val >= 0 && val / base >= 0
            && digits[..i] + CarryPass(before[i..], mul, base, carry)
               == digits[i := val % base][..i + 1] + CarryPass(before[i + 1..], mul, base, val / base)
            && digits[i := val % base][i + 1..] == before[i + 1..]
  {
    assert digits[i] == digits[i..][0] == before[i];
    assert before[i..] == [before[i]] + before[i + 1..];
    assert digits[i + 1..] == digits[i..][1..];
    var val := before[i] * mul + carry;
    StepUnfold(before[i], before[i + 1..], mul, base, carry, val);
    assert digits[i := val % base][..i + 1] == digits[..i] + [val % base];
  }

  method PushCarry(digits: seq<nat>, start: nat, base: nat) returns (r: seq<nat>)
    requires base > 1
    ensures r == digits + Push(start, base)
  {
    r := digits;
    var carry := start;
    while carry > 0
      invariant carry >= 0 && digits + Push(start, base) == r + Push(carry, base)
      decreases carry
    {
      PushUnfold(carry, base);
      Sorting.ConcatAssociative(r, [carry % base], Push(carry / base, base));
      r, carry := r + [carry % base], carry / base;
    }
    assert r + [] == r;
  }

  lemma PushUnfold(carry: nat, base: nat)
    requires base > 1 && carry > 0
    ensures 0 <= carry / base < carry
    ensures Push(carry, base) == [carry % base] + Push(carry / base, base)
  {
    if carry < base {
      assert carry / base == 0 && carry % base == carry;
    } else {
      DivShrinks(carry, base);
    }
  }

  method Base58Decode(input: string) returns (r: Option<seq<Byte>>)
    ensures r == Decode(input)
  {
    hide Value;
    hide Digits;
    hide CarryPass;
    hide Push;
    hide IndexOf;
    hide Reverse;
    assert input[..0] == [] && Indices([]) == [];
    DigitsOfNothing(256);
    var bytes: seq<nat> := [0];
    for k := 0 to |input|
      invariant InAlphabet(input[..k])
      invariant bytes == Digits(Value(Indices(input[..k]), 58), 256)
    {
      var val := IndexOf(input[k]);
      AlphabetIndexed(input[k]);
      if val < 0 {
        return None;
      }
      var before := bytes;
      var carry: nat := val;
      PassStarts(before, 58, 256, carry);
      for j := 0 to |bytes|
        invariant carry <= 58
        invariant |bytes| == |before| && bytes[j..] == before[j..]
        invariant CarryPass(before, 58, 256, val) == bytes[..j] + CarryPass(before[j..], 58, 256, carry)
      {
        StepOnce(bytes, before, j, 58, 256, carry);
        assert bytes[j] == bytes[j..][0] == before[j] < 256;
        assert carry + bytes[j] * 58 <= 58 + 255 * 58;
        carry := carry + bytes[j] * 58;
        assert carry < 0x8000_0000;  // so that & 0xff and >> 8 are remainder and quotient
        bytes := bytes[j := carry % 256];
        carry := carry / 256;
      }
      PassDone(bytes, before, 58, 256, val, carry);
      bytes := PushCarry(bytes, carry, 256);
      assert input[..k + 1] == input[..k] + [input[k]];
      assert Indices(input[..k + 1]) == Indices(input[..k]) + [val];
      ValuePush(Indices(input[..k]), val, 58);
      StepIsMulAdd(Value(Indices(input[..k]), 58), 58, 256, val);
    }
    assert input[..|input|] == input;
    var digits := Indices(input);
    var zeros := LeadingZeros(digits);
    ConvertShape(digits, 58, 256);
    assert Digits(Value(digits, 58), 256) + Zeros(0) == Digits(Value(digits, 58), 256);
    for k := 0 to zeros
      invariant bytes == Digits(Value(digits, 58), 256) + Zeros(k)
    {
      assert Zeros(k + 1) == Zeros(k) + [0];
      Sorting.ConcatAssociative(Digits(Value(digits, 58), 256), Zeros(k), [0]);
      bytes := bytes + [0];
    }
    ReverseZeros(Digits(Value(digits, 58), 256), zeros);
    assert Reverse(bytes) == Convert(digits, 58, 256);
    return Some(Reverse(bytes));
  }

  lemma ReverseZeros(digits: seq<nat>, n: nat)
    ensures Reverse(digits + Zeros(n)) == Zeros(n) + Reverse(digits)
  {
  }

  // ---------- the round trips, exactly ----------

  predicate HasNonZero(bytes: seq<Byte>) {
    exists i :: 0 <= i < |bytes| && bytes[i] != 0
  }

  predicate HasNonOne(s: string) {
    exists i :: 0 <= i < |s| && s[i] != '1'
  }

  lemma NonZeroExists(s: seq<nat>)
    ensures LeadingZeros(s) < |s| <==> exists i :: 0 <= i < |s| && s[i] != 0
  {
  }

  // base58Decode(base58btc(b)) is b exactly when b has a non-zero byte; all-zero input grows
  // by two bytes.
  lemma BytesRoundTrip(bytes: seq<Byte>)
    ensures Decode(Encode(bytes)) == Some(bytes) <==> HasNonZero(bytes)
    ensures !HasNonZero(bytes) ==> Decode(Encode(bytes)) == Some(Zeros(|bytes| + 2))
  {
    ConvertShape(bytes, 256, 58);
    LettersIndices(Convert(bytes, 256, 58));
    ConvertRoundTrip(bytes, 256, 58);
    NonZeroExists(bytes);
  }

  // base58btc(base58Decode(s)) is s exactly when s is in the alphabet and is not only ones.
  lemma TextRoundTrip(s: string)
    ensures Decode(s).Some? <==> InAlphabet(s)
    ensures Decode(s).Some? ==> (Encode(Decode(s).value) == s <==> HasNonOne(s))
  {
    hide Value;
    hide Digits;
    hide IndexOf;
    hide Reverse;
    hide Convert;
    if InAlphabet(s) {
      var d := Indices(s);
      IndicesLetters(s);
      ConvertShape(d, 58, 256);
      ConvertRoundTrip(d, 58, 256);
      ConvertShape(Convert(d, 58, 256), 256, 58);
      LettersIndices(Convert(Convert(d, 58, 256), 256, 58));
      NonZeroExists(d);
      forall i | 0 <= i < |s| ensures d[i] != 0 <==> s[i] != '1' {
        AlphabetIndexed(s[i]);
      }
    }
  }

  // ---------- what the texts say, letter by letter ----------

  const BITCOIN := "123456789ABCDEFGHJKLMNPQRSTUVWXYZabcdefghijkmnopqrstuvwxyz"

  lemma AlphabetIsBitcoin()
    ensures ALPHABET == BITCOIN
  {
    assert "123456789" + "ABCDEFGH" == "123456789ABCDEFGH";
    assert "123456789ABCDEFGH" + "JKLMN" == "123456789ABCDEFGHJKLMN";
    assert "123456789ABCDEFGHJKLMN" + "PQRSTUVWXYZ" == "123456789ABCDEFGHJKLMNPQRSTUVWXYZ";
    assert "123456789ABCDEFGHJKLMNPQRSTUVWXYZ" + "abcdefghijk" == "123456789ABCDEFGHJKLMNPQRSTUVWXYZabcdefghijk";
  }

  // The text holds one letter for each base-58 digit of the number the bytes are, most
  // significant first, behind one 1 for each leading zero byte.
  lemma EncodeMeans(bytes: seq<Byte>) returns (digits: seq<nat>)
    ensures |digits| == |Encode(bytes)| && forall i :: 0 <= i < |digits| ==>
              digits[i] < 58 && Encode(bytes)[i] == BITCOIN[digits[i]]
    ensures Value(digits, 58) == Value(bytes, 256)
    ensures HasNonZero(bytes) ==> LeadingZeros(digits) == LeadingZeros(bytes)
  {
    digits := Convert(bytes, 256, 58);
    ConvertShape(bytes, 256, 58);
    AlphabetIsBitcoin();
    NonZeroExists(bytes);
    hide Value, Convert;
  }

  // And read back: refused exactly for a character that is no letter, and the same number.
  lemma DecodeMeans(s: string) returns (digits: seq<nat>)
    ensures Decode(s).Some? <==> forall i :: 0 <= i < |s| ==> s[i] in BITCOIN
    ensures Decode(s).Some? ==>
              && |digits| == |s| && (forall i :: 0 <= i < |s| ==> digits[i] < 58 && s[i] == BITCOIN[digits[i]])
              && Value(Decode(s).value, 256) == Value(digits, 58)
              && (HasNonOne(s) ==> LeadingZeros(Decode(s).value) == LeadingZeros(digits))
  {
    hide Value, Convert, IndexOf, Run;
    AlphabetIsBitcoin();
    forall i | 0 <= i < |s| ensures IndexOf(s[i]) >= 0 <==> s[i] in BITCOIN {
      LetterOrNot(s[i]);
    }
    digits := [];
    if InAlphabet(s) {
      digits := Indices(s);
      forall i | 0 <= i < |s| ensures s[i] == BITCOIN[digits[i]] && (digits[i] != 0 <==> s[i] != '1') {
        AlphabetIndexed(s[i]);
      }
      ConvertShape(digits, 58, 256);
      NonZeroExists(digits);
    }
  }

  lemma LetterOrNot(c: char)
    ensures IndexOf(c) >= 0 <==> c in ALPHABET
  {
    hide Run;
    AlphabetIndexed(c);
    if c in ALPHABET {
      var d :| 0 <= d < |ALPHABET| && ALPHABET[d] == c;
      LetterIndexed(d);
    }
  }
}
