/** Base58Check as the migration backend writes it and the address checks read it. */
module Base58 {
  import opened Results
  import opened Numerals

  const FIGURES: string := "123456789"
  const UPPER: string := "ABCDEFGHJKLMNPQRSTUVWXYZ"
  const LOWER: string := "abcdefghijkmnopqrstuvwxyz"
  const ALPHABET: string := FIGURES + UPPER + LOWER

  // ---------------------------------------------------------------- minimal byte length

  function BitLength(n: nat): nat { if n == 0 then 0 else 1 + BitLength(n / 2) }

  /** A number as exactly `length` big-endian bytes. */
  function ToBytes(n: nat, length: nat): (s: Bytes)
    ensures |s| == length
  {
    if length == 0 then [] else ToBytes(n / 256, length - 1) + [n % 256]
  }

  lemma {:induction false} BitLengthBound(n: nat, k: nat)
    requires 0 < n < Power2(k)
    ensures 1 <= BitLength(n) <= k
    decreases k
  {
    if n > 1 { BitLengthBound(n / 2, k - 1); }
  }

  lemma BitLengthByByte(n: nat)
    ensures n >= 256 ==> BitLength(n) == 8 + BitLength(n / 256)
    ensures 0 < n < 256 ==> 1 <= BitLength(n) <= 8
  {
    if n >= 256 {
      assert BitLength(n) == 2 + BitLength(n / 2 / 2);
      assert BitLength(n / 2 / 2) == 2 + BitLength(n / 2 / 2 / 2 / 2);
      assert n / 2 / 2 / 2 / 2 == n / 16;
      assert BitLength(n / 16) == 2 + BitLength(n / 16 / 2 / 2);
      assert BitLength(n / 16 / 2 / 2) == 2 + BitLength(n / 16 / 2 / 2 / 2 / 2);
      assert n / 16 / 2 / 2 / 2 / 2 == n / 256;
    } else if n > 0 {
      assert Power2(8) == 256;
      BitLengthBound(n, 8);
    }
  }

  /** The byte length computed from the bit length is exactly that of the numeral without leading zeros. */
  lemma {:induction false} MinimalBytes(n: nat)
    ensures ToBytes(n, (BitLength(n) + 7) / 8) == Digits(256, n)
  {
    if n > 0 {
      BitLengthByByte(n);
      MinimalBytes(n / 256);
      if n < 256 { assert n / 256 == 0; }
      assert (BitLength(n) + 7) / 8 == (BitLength(n / 256) + 7) / 8 + 1;
    }
  }

  // ---------------------------------------------------------------- symbols

  lemma FiguresAscend(i: nat, j: nat)
    requires i < 9 && j < 9
    ensures |FIGURES| == 9 && FIGURES[i] <= '9' && (i < j ==> FIGURES[i] < FIGURES[j])
  {
    var figures := "123456789";
    assert figures[i] <= '9' && (i < j ==> figures[i] < figures[j]);
  }

  lemma UpperAscends(i: nat, j: nat)
    requires i < 24 && j < 24
    ensures |UPPER| == 24 && 'A' <= UPPER[i] <= 'Z' && (i < j ==> UPPER[i] < UPPER[j])
  {
    var upper := "ABCDEFGHJKLMNPQRSTUVWXYZ";
    assert 'A' <= upper[i] <= 'Z' && (i < j ==> upper[i] < upper[j]);
  }

  lemma LowerAscends(i: nat, j: nat)
    requires i < 25 && j < 25
    ensures |LOWER| == 25 && 'a' <= LOWER[i] && (i < j ==> LOWER[i] < LOWER[j])
  {
    var lower := "abcdefghijkmnopqrstuvwxyz";
    assert 'a' <= lower[i] && (i < j ==> lower[i] < lower[j]);
  }

  lemma AlphabetAscends(i: nat, j: nat)
    requires i < j < 58
    ensures |ALPHABET| == 58 && ALPHABET[i] < ALPHABET[j]
  {
    hide FIGURES, UPPER, LOWER;
    var lastFigure, lastUpper := if i < 9 then i else 0, if 9 <= i < 33 then i - 9 else 0;
    FiguresAscend(lastFigure, if j < 9 then j else 8);
    UpperAscends(lastUpper, if 9 <= j < 33 then j - 9 else 23);
    UpperAscends(if 9 <= j < 33 then j - 9 else 23, 0);
    LowerAscends(if i >= 33 then i - 33 else 0, if j >= 33 then j - 33 else 0);
    LowerAscends(if j >= 33 then j - 33 else 0, 0);
  }

  /** The symbols are the ASCII letters and digits without 0, O, I and l, in ascending order. */
  lemma AlphabetIs(c: char)
    ensures c in ALPHABET
            <==> ('0' <= c <= '9' || 'A' <= c <= 'Z' || 'a' <= c <= 'z') && c != '0' && c != 'O' && c != 'I' && c != 'l'
    ensures |ALPHABET| == 58 && forall i, j | 0 <= i < j < 58 :: ALPHABET[i] < ALPHABET[j]
  {
    AlphabetAscends(0, 57);
    forall i, j | 0 <= i < j < 58 ensures ALPHABET[i] < ALPHABET[j] { AlphabetAscends(i, j); }
    FigureIs(c);
    UpperIs(c);
    LowerIs(c);
  }

  lemma FigureIs(c: char)
    ensures c in FIGURES <==> '1' <= c <= '9'
  {
    var figures := "123456789";
    assert '1' <= c <= '9' ==> figures[c as int - 49] == c;
  }

  lemma UpperIs(c: char)
    ensures c in UPPER <==> 'A' <= c <= 'Z' && c != 'I' && c != 'O'
  {
    hide UPPER;
    if c in UPPER { UpperOnly(c); }
    if 'A' <= c <= 'Z' && c != 'I' && c != 'O' { UpperAll(c); }
  }

  lemma UpperOnly(c: char)
    requires c in UPPER
    ensures 'A' <= c <= 'Z' && c != 'I' && c != 'O'
  {
  }

  lemma UpperAll(c: char)
    requires 'A' <= c <= 'Z' && c != 'I' && c != 'O'
    ensures c in UPPER
  {
    var upper := "ABCDEFGHJKLMNPQRSTUVWXYZ";
    assert upper[if c < 'I' then c as int - 65 else if c < 'O' then c as int - 66 else c as int - 67] == c;
  }

  lemma LowerIs(c: char)
    ensures c in LOWER <==> 'a' <= c <= 'z' && c != 'l'
  {
    var lower := "abcdefghijkmnopqrstuvwxyz";
    assert 'a' <= c <= 'k' ==> lower[c as int - 97] == c;
    assert 'm' <= c <= 'z' ==> lower[c as int - 98] == c;
  }

  lemma IndexOfSymbol(i: nat)
    requires i < 58
    ensures |ALPHABET| == 58 && IndexIn(ALPHABET, ALPHABET[i]) == Some(i)
  {
    AlphabetAscends(0, 57);
    forall j | 0 <= j < i ensures ALPHABET[j] != ALPHABET[i] { AlphabetAscends(j, i); }
    IndexFinds(ALPHABET, i);
  }

  /** The text of a base-58 numeral. */
  function Symbols(digits: seq<int>): (s: string)
    requires Below(58, digits)
    ensures |s| == |digits|
  {
    if digits == [] then ""
    else Symbols(digits[..|digits| - 1]) + [ALPHABET[digits[|digits| - 1]]]
  }

  /** The digits of a text, or nothing when a character is foreign to the alphabet. */
  function Indices(s: string): (r: Option<seq<int>>)
    ensures r.Some? ==> |r.value| == |s|
  {
    if s == "" then Some([])
    else
      match Indices(s[..|s| - 1])
      case None => None
      case Some(front) =>
        match IndexIn(ALPHABET, s[|s| - 1])
        case None => None
        case Some(i) => Some(front + [i])
  }

  lemma {:induction false} IndicesOfSymbols(digits: seq<int>)
    requires Below(58, digits)
    ensures Indices(Symbols(digits)) == Some(digits)
  {
    hide ALPHABET;
    if digits != [] {
      var s, last := Symbols(digits), digits[|digits| - 1];
      IndicesOfSymbols(digits[..|digits| - 1]);
      IndexOfSymbol(last);
      assert s[..|s| - 1] == Symbols(digits[..|digits| - 1]) && s[|s| - 1] == ALPHABET[last];
      assert digits == digits[..|digits| - 1] + [last];
    }
  }

  lemma {:induction false} SymbolsOfIndices(s: string)
    requires Indices(s).Some?
    ensures Below(58, Indices(s).value) && Symbols(Indices(s).value) == s
  {
    hide ALPHABET;
    if s != "" {
      SymbolsOfIndices(s[..|s| - 1]);
      FoundIndex(ALPHABET, s[|s| - 1]);
      AlphabetAscends(0, 57);
      var ds := Indices(s).value;
      assert ds[..|ds| - 1] == Indices(s[..|s| - 1]).value;
    }
  }

  lemma {:induction false} SymbolsConcat(a: seq<int>, b: seq<int>)
    requires Below(58, a) && Below(58, b)
    ensures Symbols(a + b) == Symbols(a) + Symbols(b)
  {
    if b != [] {
      assert (a + b)[..|a + b| - 1] == a + b[..|b| - 1];
      SymbolsConcat(a, b[..|b| - 1]);
    } else {
      assert a + b == a;
    }
  }

  // ---------------------------------------------------------------- encoding and decoding

  /** Both modules compute it as the double SHA-256. */
  type Digest = Bytes -> Bytes

  ghost predicate DigestLaw(digest: Digest)
  {
    forall b: Bytes :: |digest(b)| == 32 && Below(256, digest(b))
  }

  lemma DigestReads(digest: Digest, b: Bytes)
    requires DigestLaw(digest)
    ensures |digest(b)| == 32 && Below(256, digest(b))
  {
  }

  function LeadingOnes(s: string): (n: nat)
    ensures n <= |s|
  {
    if s == "" || s[0] != '1' then 0 else 1 + LeadingOnes(s[1..])
  }

  function Ones(n: nat): (s: string)
    ensures |s| == n
  {
    if n == 0 then "" else Ones(n - 1) + "1"
  }

  function EncodeFull(full: Bytes): string
    requires Below(256, full)
  {
    NumNonNegative(256, full);
    var n := Num(256, full);
    NumOfDigits(58, n);
    Ones(LeadingZeros(full)) + if n == 0 then "1" else Symbols(Digits(58, n))
  }

  lemma DigitsStep(base: int, n: nat, q: nat, r: nat)
    requires base >= 2 && r < base && n == q * base + r && n > 0
    ensures Digits(base, n) == Digits(base, q) + [r]
  {
    QuotientRemainder(q, r, base);
  }

  lemma KnownDigits()
    ensures Num(256, [0, 0, 255]) == 255 && Digits(58, 255) == [4, 23]
  {
    assert [0, 0, 255][..2] == [0, 0] && [0, 0][..1] == [0] && [0][..0] == [];
    assert Num(256, [0]) == 0;
    DigitsStep(58, 4, 0, 4);
    DigitsStep(58, 255, 4, 23);
  }

  lemma KnownSymbols()
    ensures Symbols([4, 23]) == "5Q"
  {
    assert [4, 23][..1] == [4] && [4][..0] == [] && Symbols([]) == "";
    assert ALPHABET[4] == FIGURES[4] == '5';
    assert ALPHABET[23] == UPPER[14] == 'Q';
    assert Symbols([4]) == "5";
  }

  /** Two zero bytes and 255 = 4 * 58 + 23 are two ones and the symbols of 4 and 23. */
  lemma KnownEncoding()
    ensures EncodeFull([0, 0, 255]) == "115Q"
  {
    hide Symbols, Digits, Num, ALPHABET;
    KnownDigits();
    KnownSymbols();
    LeadingZerosOf(2, [255]);
    assert Zeros(2) + [255] == [0, 0, 255];
    assert Ones(2) == "11" by { assert Ones(1) == Ones(0) + "1"; }
  }

  /** Payload and checksum in base 58. */
  function EncodeCheck(digest: Digest, payload: Bytes): string
    requires Below(256, payload) && |digest(payload)| == 32 && Below(256, digest(payload))
  {
    EncodeFull(payload + digest(payload)[..4])
  }

  function DecodeFull(s: string): Option<Bytes>
  {
    match Indices(s)
    case None => None
    case Some(digits) =>
      SymbolsOfIndices(s);
      NumNonNegative(58, digits);
      var n := Num(58, digits);
      Some(Zeros(LeadingOnes(s)) + ToBytes(n, (BitLength(n) + 7) / 8))
  }

  function DecodeCheck(digest: Digest, s: string): Result<Bytes>
  {
    match DecodeFull(s)
    case None => Rejected("invalid base58 character")
    case Some(full) =>
      if |full| < 5 then Rejected("payload is too short")
      else
        var body, checksum := full[..|full| - 4], full[|full| - 4..];
        if |digest(body)| < 4 || digest(body)[..4] != checksum then Rejected("checksum mismatch") else Ok(body)
  }

  /** A text is accepted for a body of at least one byte exactly when it decodes to the body followed by the first four
      bytes of its digest. */
  lemma AcceptedIff(digest: Digest, s: string, body: Bytes)
    requires DigestLaw(digest)
    ensures DecodeCheck(digest, s) == Ok(body) <==> |body| >= 1 && DecodeFull(s) == Some(body + digest(body)[..4])
  {
    hide DecodeFull;
    DigestReads(digest, body);
    var full := body + digest(body)[..4];
    assert full[..|full| - 4] == body && full[|full| - 4..] == digest(body)[..4];
    if DecodeFull(s).Some? {
      var f := DecodeFull(s).value;
      assert |f| >= 4 ==> f == f[..|f| - 4] + f[|f| - 4..];
    }
  }

  lemma {:induction false} LeadingOnesAreZeros(digits: seq<int>)
    requires Below(58, digits)
    ensures LeadingOnes(Symbols(digits)) == LeadingZeros(digits)
  {
    hide ALPHABET;
    if digits != [] {
      var rest := digits[1..];
      assert digits == [digits[0]] + rest;
      SymbolsConcat([digits[0]], rest);
      assert [digits[0]][..0] == [];
      FirstSymbol(digits[0]);
      assert Symbols([digits[0]]) == [ALPHABET[digits[0]]];
      assert Symbols(digits)[1..] == Symbols(rest);
      LeadingOnesAreZeros(rest);
    }
  }

  lemma FirstSymbol(d: int)
    requires 0 <= d < 58
    ensures |ALPHABET| == 58
    ensures ALPHABET[d] == '1' <==> d == 0
  {
    AlphabetAscends(0, 57);
    if d > 0 { AlphabetAscends(0, d); }
    assert ALPHABET[0] == '1';
  }

  lemma {:induction false} OnesAreZeroSymbols(n: nat)
    ensures Symbols(Zeros(n)) == Ones(n)
  {
    if n > 0 {
      OnesAreZeroSymbols(n - 1);
      assert Zeros(n)[..n - 1] == Zeros(n - 1);
      FirstSymbol(0);
    }
  }

  /** What the writer writes is the base-58 numeral of the bytes behind one zero digit per leading zero byte. */
  lemma EncodedDigits(full: Bytes)
    requires Below(256, full) && Num(256, full) > 0
    ensures Below(58, Zeros(LeadingZeros(full)) + Digits(58, Num(256, full)))
    ensures EncodeFull(full) == Symbols(Zeros(LeadingZeros(full)) + Digits(58, Num(256, full)))
  {
    NumOfDigits(58, Num(256, full));
    OnesAreZeroSymbols(LeadingZeros(full));
    SymbolsConcat(Zeros(LeadingZeros(full)), Digits(58, Num(256, full)));
  }

  /** Bytes that are not all zero survive the round trip, leading zeros included. */
  lemma FullRoundTrip(full: Bytes)
    requires Below(256, full) && Num(256, full) > 0
    ensures DecodeFull(EncodeFull(full)) == Some(full)
  {
    hide Symbols, Indices, Digits, ToBytes, BitLength;
    var n, z := Num(256, full), LeadingZeros(full);
    var digits := Zeros(z) + Digits(58, n);
    EncodedDigits(full);
    IndicesOfSymbols(digits);
    LeadingOnesAreZeros(digits);
    NumOfDigits(58, n);
    LeadingZerosOf(z, Digits(58, n));
    NumOfZeros(58, z, Digits(58, n));
    MinimalBytes(n);
    ZerosThenDigits(256, full);
  }

  lemma AllZeros(full: Bytes)
    requires Below(256, full) && Num(256, full) == 0
    ensures LeadingZeros(full) == |full| && EncodeFull(full) == Ones(|full| + 1)
  {
    ZerosThenDigits(256, full);
  }

  lemma OnesDecode(n: nat)
    ensures DecodeFull(Ones(n)) == Some(Zeros(n))
  {
    hide Symbols, Indices, ALPHABET, LeadingOnes, Digits;
    OnesAreZeroSymbols(n);
    IndicesOfSymbols(Zeros(n));
    LeadingOnesAreZeros(Zeros(n));
    assert Zeros(n) + [] == Zeros(n);
    LeadingZerosOf(n, []);
    NumOfZeros(58, n, []);
    assert ToBytes(0, (BitLength(0) + 7) / 8) == [];
  }

  /** Bytes that are all zero come back with one more. */
  lemma ZerosGrow(full: Bytes)
    requires Below(256, full) && Num(256, full) == 0
    ensures DecodeFull(EncodeFull(full)) == Some(Zeros(|full| + 1))
  {
    AllZeros(full);
    OnesDecode(|full| + 1);
  }

  /** Reading back what was written returns the payload exactly when there is one and payload and checksum are not
      all zero. */
  lemma DecodeInvertsEncode(digest: Digest, payload: Bytes)
    requires DigestLaw(digest) && Below(256, payload)
    ensures DecodeCheck(digest, EncodeCheck(digest, payload)) == Ok(payload)
            <==> payload != [] && exists i | 0 <= i < |payload| + 4 :: (payload + digest(payload)[..4])[i] != 0
  {
    hide DecodeFull, EncodeFull, DigestLaw;
    DigestReads(digest, payload);
    var full := payload + digest(payload)[..4];
    assert Below(256, full);
    NumNonNegative(256, full);
    ZeroNum(full);
    if Num(256, full) > 0 {
      FullRoundTrip(full);
      assert full[..|full| - 4] == payload && full[|full| - 4..] == digest(payload)[..4];
    } else {
      ZerosGrow(full);
      assert forall i | 0 <= i < |payload| + 4 :: full[i] == 0;
    }
  }

  lemma ZeroNum(full: Bytes)
    requires Below(256, full)
    ensures Num(256, full) == 0 <==> forall i | 0 <= i < |full| :: full[i] == 0
  {
    ZerosThenDigits(256, full);
    if Num(256, full) == 0 {
      assert full == Zeros(LeadingZeros(full));
    } else if forall i | 0 <= i < |full| :: full[i] == 0 {
      assert full == Zeros(|full|) + [];
      NumOfZeros(256, |full|, []);
    }
  }

  lemma SomeDigit(s: string)
    requires Indices(s).Some? && LeadingOnes(s) < |s|
    ensures Below(58, Indices(s).value) && Num(58, Indices(s).value) > 0
    ensures Below(58, Zeros(LeadingOnes(s)) + Digits(58, Num(58, Indices(s).value)))
    ensures s == Symbols(Zeros(LeadingOnes(s)) + Digits(58, Num(58, Indices(s).value)))
  {
    hide Symbols, Indices, ALPHABET;
    var digits := Indices(s).value;
    SymbolsOfIndices(s);
    LeadingOnesAreZeros(digits);
    ZerosThenDigits(58, digits);
    EmptyNumeral(Num(58, digits));
    assert Num(58, digits) == 0 ==> |digits| == LeadingZeros(digits);
  }

  lemma EncodedNumber(z: nat, n: nat)
    requires n > 0
    ensures Below(256, Zeros(z) + Digits(256, n)) && Below(58, Zeros(z) + Digits(58, n))
    ensures EncodeFull(Zeros(z) + Digits(256, n)) == Symbols(Zeros(z) + Digits(58, n))
  {
    hide Symbols, Digits, ALPHABET, EncodeFull;
    NumOfDigits(256, n);
    NumOfZeros(256, z, Digits(256, n));
    LeadingZerosOf(z, Digits(256, n));
    EncodedDigits(Zeros(z) + Digits(256, n));
  }

  lemma FullReadBack(s: string)
    requires DecodeFull(s).Some? && LeadingOnes(s) < |s|
    ensures Below(256, DecodeFull(s).value) && EncodeFull(DecodeFull(s).value) == s
  {
    hide Symbols, Indices, Digits, ToBytes, BitLength, ALPHABET, EncodeFull, Below, Num, Zeros;
    SomeDigit(s);
    MinimalBytes(Num(58, Indices(s).value));
    EncodedNumber(LeadingOnes(s), Num(58, Indices(s).value));
  }

  /** Any accepted text with a character other than `1` is the one the writer makes for its payload, so a payload
      has one such text. */
  lemma EncodeInvertsDecode(digest: Digest, s: string)
    requires DigestLaw(digest) && DecodeCheck(digest, s).Ok? && LeadingOnes(s) < |s|
    ensures Below(256, DecodeCheck(digest, s).value) && EncodeCheck(digest, DecodeCheck(digest, s).value) == s
  {
    hide DecodeFull, EncodeFull, LeadingOnes, Num, DigestLaw;
    FullReadBack(s);
    var full := DecodeFull(s).value;
    var body := full[..|full| - 4];
    DigestReads(digest, body);
    assert body + digest(body)[..4] == full;
  }

  lemma EmptyNumeral(n: nat)
    ensures Digits(58, n) == [] <==> n == 0
  {
  }

  /** The writer's loop: divide by 58 and put each symbol in front. */
  method EncodeNumber(n: nat) returns (encoded: string)
    ensures Below(58, Digits(58, n)) && encoded == Symbols(Digits(58, n))
  {
    hide Symbols, ALPHABET;
    NumOfDigits(58, n);
    var value := n;
    encoded := "";
    AlphabetAscends(0, 57);
    EmptySymbols();
    while value != 0
      invariant value >= 0 && Below(58, Digits(58, value))
      invariant Symbols(Digits(58, n)) == Symbols(Digits(58, value)) + encoded
      decreases value
    {
      NumOfDigits(58, value / 58);
      LastSymbol(Digits(58, value / 58), value % 58);
      encoded := [ALPHABET[value % 58]] + encoded;
      value := value / 58;
    }
  }

  method Base58CheckEncode(digest: Digest, payload: Bytes) returns (s: string)
    requires DigestLaw(digest) && Below(256, payload)
    ensures s == EncodeCheck(digest, payload)
  {
    hide Digits;
    var full := payload + digest(payload)[..4];
    var value := 0;
    for i := 0 to |full|
      invariant value == Num(256, full[..i]) && value >= 0
    {
      assert full[..i + 1][..i] == full[..i];
      value := value * 256 + full[i];
    }
    assert full[..|full|] == full;
    var encoded := EncodeNumber(value);
    EmptyNumeral(value);
    s := Ones(LeadingZeros(full)) + if encoded == "" then "1" else encoded;
  }

  lemma EmptySymbols()
    ensures Symbols([]) == "" && Digits(58, 0) == []
  {
  }

  lemma LastSymbol(digits: seq<int>, d: int)
    requires Below(58, digits) && 0 <= d < 58
    ensures |ALPHABET| == 58 && Symbols(digits + [d]) == Symbols(digits) + [ALPHABET[d]]
  {
    AlphabetAscends(0, 57);
    assert (digits + [d])[..|digits|] == digits;
  }

  /** The reader's loop: multiply by 58 and add each symbol's index. */
  method Base58CheckDecode(digest: Digest, s: string) returns (r: Result<Bytes>)
    ensures r.Ok? == DecodeCheck(digest, s).Ok? && (r.Ok? ==> r == DecodeCheck(digest, s))
  {
    hide ALPHABET, IndexIn, LeadingOnes, BitLength;
    var accumulator := 0;
    for i := 0 to |s|
      invariant Indices(s[..i]).Some? && accumulator == Num(58, Indices(s[..i]).value) && accumulator >= 0
    {
      assert s[..i + 1][..i] == s[..i];
      var index := IndexIn(ALPHABET, s[i]);
      if index.None? {
        ForeignSymbol(s, i + 1);
        return Rejected("invalid base58 character");
      }
      assert (Indices(s[..i]).value + [index.value])[..i] == Indices(s[..i]).value;
      accumulator := accumulator * 58 + index.value;
    }
    assert s[..|s|] == s;
    var full := ToBytes(accumulator, (BitLength(accumulator) + 7) / 8);
    var payload := Zeros(LeadingOnes(s)) + full;
    if |payload| < 5 { return Rejected("payload is too short"); }
    var body, checksum := payload[..|payload| - 4], payload[|payload| - 4..];
    if |digest(body)| < 4 || digest(body)[..4] != checksum { return Rejected("checksum mismatch"); }
    return Ok(body);
  }

  lemma {:induction false} ForeignSymbol(s: string, i: nat)
    requires i <= |s| && Indices(s[..i]).None?
    ensures Indices(s).None?
    decreases |s|
  {
    if i < |s| {
      assert s[..|s| - 1][..i] == s[..i];
      ForeignSymbol(s[..|s| - 1], i);
    } else {
      assert s[..i] == s;
    }
  }
}
