/** Bech32 as the migration backend writes it and the address checks read it (BIP 173). */
module Bech32 {
  import opened Results
  import opened Numerals

  type Word = bv32

  // ---------------------------------------------------------------- words

  function Xor(a: Word, b: Word): Word { a ^ b }

  /** The register's low 25 bits moved up by one symbol. */
  function Shift(c: Word): Word { (c & 0x1ffffff) << 5 }

  function Top(c: Word): Word { c >> 25 }

  function Symbol(p: Word, shift: nat): Word
    requires shift <= 25
  {
    (p >> shift) & 31
  }

  predicate Low(c: Word) { c < 0x2000000 }

  predicate Narrow(c: Word) { c < 0x40000000 }

  lemma XorAssociates(a: Word, b: Word, c: Word)
    ensures Xor(Xor(a, b), c) == Xor(a, Xor(b, c))
  {
  }

  lemma XorCommutes(a: Word, b: Word)
    ensures Xor(a, b) == Xor(b, a)
  {
  }

  lemma XorNothing(a: Word)
    ensures Xor(a, 0) == a && Xor(a, a) == 0
  {
  }

  lemma XorNarrow(a: Word, b: Word)
    requires Narrow(a) && Narrow(b)
    ensures Narrow(Xor(a, b))
  {
  }

  lemma ShiftNarrow(c: Word)
    ensures Narrow(Shift(c))
  {
  }

  lemma ShiftSplits(c: Word, e: Word)
    ensures Shift(Xor(c, e)) == Xor(Shift(c), Shift(e))
  {
  }

  lemma TopKeeps(c: Word, e: Word)
    requires Low(e)
    ensures Top(Xor(c, e)) == Top(c)
  {
  }

  // ---------------------------------------------------------------- the checksum register

  function Generator(i: nat): Word
    requires i < 5
  {
    if i == 0 then 0x3b6a57b2 else if i == 1 then 0x26508e6d else if i == 2 then 0x1ea119fa
    else if i == 3 then 0x3d4233dd else 0x2a1462b3
  }

  function Selected(top: Word, i: nat): Word
    requires i < 5
  {
    if (top >> i) & 1 == 1 then Generator(i) else 0
  }

  /** The generators selected by the five bits shifted out, up to bit `n`. */
  function Feedback(top: Word, n: nat): Word
    requires n <= 5
  {
    if n == 0 then 0 else Xor(Feedback(top, n - 1), Selected(top, n - 1))
  }

  function Step(c: Word, value: Word): Word
  {
    Xor(Xor(Shift(c), value), Feedback(Top(c), 5))
  }

  function RunFrom(c: Word, values: seq<Word>): Word
  {
    if values == [] then c else Step(RunFrom(c, values[..|values| - 1]), values[|values| - 1])
  }

  function Polymod(values: seq<Word>): Word { RunFrom(1, values) }

  /** Symbols packed five bits each, the first one highest. */
  function Pack(symbols: seq<Word>): Word
  {
    if symbols == [] then 0 else Xor(Shift(Pack(symbols[..|symbols| - 1])), symbols[|symbols| - 1])
  }

  predicate FiveBit(s: seq<Word>) { forall i | 0 <= i < |s| :: s[i] < 32 }

  /** The register is linear in whatever lies below its five top bits, and in the value fed to it. */
  lemma StepLinear(c: Word, e: Word, value: Word)
    requires Low(e)
    ensures Step(Xor(c, e), value) == Xor(Step(c, 0), Xor(Shift(e), value))
  {
    hide Xor, Shift, Top, Feedback, Low;
    TopKeeps(c, e);
    ShiftSplits(c, e);
    XorNothing(Shift(c));
    Regroup(Shift(c), Shift(e), value, Feedback(Top(c), 5));
  }

  lemma Regroup(a: Word, b: Word, v: Word, f: Word)
    ensures Xor(Xor(Xor(a, b), v), f) == Xor(Xor(a, f), Xor(b, v))
  {
    hide Xor;
    XorAssociates(a, b, v);
    XorAssociates(a, Xor(b, v), f);
    XorCommutes(Xor(b, v), f);
    XorAssociates(a, f, Xor(b, v));
  }

  function Limit(n: nat): Word
    requires n <= 6
  {
    if n == 0 then 1 else if n == 1 then 0x20 else if n == 2 then 0x400 else if n == 3 then 0x8000
    else if n == 4 then 0x100000 else if n == 5 then 0x2000000 else 0x40000000
  }

  lemma PackStep(p: Word, d: Word, n: nat)
    requires 1 <= n <= 6 && p < Limit(n - 1) && d < 32
    ensures Xor(Shift(p), d) < Limit(n)
  {
  }

  lemma {:induction false} PackBound(symbols: seq<Word>)
    requires |symbols| <= 6 && FiveBit(symbols)
    ensures Pack(symbols) < Limit(|symbols|)
  {
    hide Xor, Shift;
    if symbols != [] {
      PackBound(symbols[..|symbols| - 1]);
      PackStep(Pack(symbols[..|symbols| - 1]), symbols[|symbols| - 1], |symbols|);
    }
  }

  lemma PackLow(symbols: seq<Word>)
    requires |symbols| <= 5 && FiveBit(symbols)
    ensures Low(Pack(symbols))
  {
    hide Pack;
    PackBound(symbols);
    LimitLow(Pack(symbols), |symbols|);
  }

  lemma LimitLow(p: Word, n: nat)
    requires n <= 5 && p < Limit(n)
    ensures Low(p)
  {
  }

  function Blank(n: nat): (s: seq<Word>)
    ensures |s| == n
  {
    if n == 0 then [] else Blank(n - 1) + [0]
  }

  /** Up to six symbols add exactly their packed value to the register. */
  lemma {:induction false} SymbolsAddUp(c: Word, symbols: seq<Word>)
    requires |symbols| <= 6 && FiveBit(symbols)
    ensures RunFrom(c, symbols) == Xor(RunFrom(c, Blank(|symbols|)), Pack(symbols))
  {
    hide Step, Xor, Shift, Low;
    var n := |symbols|;
    if n > 0 {
      var front, d := symbols[..n - 1], symbols[n - 1];
      SymbolsAddUp(c, front);
      PackLow(front);
      assert Blank(n)[..n - 1] == Blank(n - 1);
      StepLinear(RunFrom(c, Blank(n - 1)), Pack(front), d);
    } else {
      XorNothing(c);
    }
  }

  lemma {:induction false} RunConcat(c: Word, s: seq<Word>, t: seq<Word>)
    ensures RunFrom(c, s + t) == RunFrom(RunFrom(c, s), t)
  {
    hide Step;
    if t != [] {
      assert (s + t)[..|s + t| - 1] == s + t[..|t| - 1];
      RunConcat(c, s, t[..|t| - 1]);
    } else {
      assert s + t == s;
    }
  }

  // ---------------------------------------------------------------- the checksum

  /** The six symbols that a 30-bit word packs. */
  function Unpack(p: Word): (s: seq<Word>)
    ensures |s| == 6
  {
    [Symbol(p, 25), Symbol(p, 20), Symbol(p, 15), Symbol(p, 10), Symbol(p, 5), Symbol(p, 0)]
  }

  /** The six symbols computed for a target residue; Bech32 uses 1. */
  function ChecksumFor(values: seq<Word>, target: Word): (s: seq<Word>)
    ensures |s| == 6
  {
    Unpack(Xor(Polymod(values + Blank(6)), target))
  }

  function Checksum(values: seq<Word>): (s: seq<Word>) { ChecksumFor(values, 1) }

  function Six(a: Word, b: Word, c: Word, d: Word, e: Word, f: Word): Word
  {
    Xor(Shift(Xor(Shift(Xor(Shift(Xor(Shift(Xor(Shift(a), b)), c)), d)), e)), f)
  }

  lemma PackSix(a: Word, b: Word, c: Word, d: Word, e: Word, f: Word)
    requires a < 32
    ensures Pack([a, b, c, d, e, f]) == Six(a, b, c, d, e, f)
  {
    hide Xor, Shift;
    assert [a, b, c, d, e, f][..5] == [a, b, c, d, e] && [a, b, c, d, e][..4] == [a, b, c, d];
    assert [a, b, c, d][..3] == [a, b, c] && [a, b, c][..2] == [a, b] && [a, b][..1] == [a] && [a][..0] == [];
    assert Pack([]) == 0;
    FromNothing(a);
    assert Pack([a]) == a;
    assert Pack([a, b]) == Xor(Shift(a), b);
    assert Pack([a, b, c]) == Xor(Shift(Pack([a, b])), c);
    assert Pack([a, b, c, d]) == Xor(Shift(Pack([a, b, c])), d);
    assert Pack([a, b, c, d, e]) == Xor(Shift(Pack([a, b, c, d])), e);
  }

  lemma FromNothing(a: Word)
    ensures Xor(Shift(0), a) == a
  {
  }

  lemma SymbolReads(p: Word)
    requires p < 0x40000000
    ensures Symbol(p, 25) == p >> 25 && Symbol(p, 20) == (p >> 20) & 31 && Symbol(p, 15) == (p >> 15) & 31
    ensures Symbol(p, 10) == (p >> 10) & 31 && Symbol(p, 5) == (p >> 5) & 31 && Symbol(p, 0) == (p >> 0) & 31
  {
  }

  /** Each symbol behind those above it gives the next part of a word. */
  lemma Regain(p: Word)
    requires p < 0x40000000
    ensures ((((p >> 25) & 0x1ffffff) << 5) ^ ((p >> 20) & 31)) == p >> 20
    ensures ((((p >> 20) & 0x1ffffff) << 5) ^ ((p >> 15) & 31)) == p >> 15
    ensures ((((p >> 15) & 0x1ffffff) << 5) ^ ((p >> 10) & 31)) == p >> 10
    ensures ((((p >> 10) & 0x1ffffff) << 5) ^ ((p >> 5) & 31)) == p >> 5
    ensures ((((p >> 5) & 0x1ffffff) << 5) ^ ((p >> 0) & 31)) == p
  {
  }

  lemma Recombine(p: Word)
    requires Narrow(p)
    ensures Six(Symbol(p, 25), Symbol(p, 20), Symbol(p, 15), Symbol(p, 10), Symbol(p, 5), Symbol(p, 0)) == p
  {
    hide Symbol;
    SymbolReads(p);
    Regain(p);
  }

  lemma SymbolSmall(p: Word, shift: nat)
    requires shift <= 25
    ensures Symbol(p, shift) < 32
  {
    Masked(p >> shift);
  }

  lemma Masked(x: Word)
    ensures x & 31 < 32
  {
  }

  lemma UnpackFiveBit(p: Word)
    ensures FiveBit(Unpack(p))
  {
    hide Symbol;
    SymbolSmall(p, 25);
    SymbolSmall(p, 20);
    SymbolSmall(p, 15);
    SymbolSmall(p, 10);
    SymbolSmall(p, 5);
    SymbolSmall(p, 0);
  }

  lemma PackUnpack(p: Word)
    requires Narrow(p)
    ensures Pack(Unpack(p)) == p
  {
    hide Symbol, Six, Pack, Narrow;
    SymbolSmall(p, 25);
    PackSix(Symbol(p, 25), Symbol(p, 20), Symbol(p, 15), Symbol(p, 10), Symbol(p, 5), Symbol(p, 0));
    Recombine(p);
  }

  lemma Separate(a: Word, b: Word, c: Word, d: Word, e: Word, f: Word)
    requires a < 32 && b < 32 && c < 32 && d < 32 && e < 32 && f < 32
    ensures var p := Six(a, b, c, d, e, f);
            && Symbol(p, 25) == a && Symbol(p, 20) == b && Symbol(p, 15) == c
            && Symbol(p, 10) == d && Symbol(p, 5) == e && Symbol(p, 0) == f
  {
  }

  lemma UnpackPack(s: seq<Word>)
    requires |s| == 6 && FiveBit(s)
    ensures Unpack(Pack(s)) == s
  {
    hide Symbol, Six, Pack;
    assert s == [s[0], s[1], s[2], s[3], s[4], s[5]];
    PackSix(s[0], s[1], s[2], s[3], s[4], s[5]);
    Separate(s[0], s[1], s[2], s[3], s[4], s[5]);
  }

  lemma FeedbackNarrow(top: Word, n: nat)
    requires n <= 5
    ensures Narrow(Feedback(top, n))
  {
    hide Xor;
    if n > 0 {
      FeedbackNarrow(top, n - 1);
      XorNarrow(Feedback(top, n - 1), Selected(top, n - 1));
    }
  }

  lemma StepNarrow(c: Word)
    ensures Narrow(Step(c, 0))
  {
    hide Xor, Shift, Feedback, Narrow;
    XorNothing(Shift(c));
    ShiftNarrow(c);
    FeedbackNarrow(Top(c), 5);
    XorNarrow(Shift(c), Feedback(Top(c), 5));
  }

  lemma BlankNarrow(c: Word)
    ensures Narrow(RunFrom(c, Blank(6)))
  {
    hide Step, Narrow;
    assert Blank(6)[..5] == Blank(5);
    StepNarrow(RunFrom(c, Blank(5)));
  }

  lemma XorIs(p: Word, q: Word, t: Word)
    ensures Xor(p, q) == t <==> q == Xor(p, t)
  {
    hide Xor;
    XorAssociates(p, p, q);
    XorAssociates(p, p, t);
    XorNothing(p);
    XorCommutes(0, q);
    XorNothing(q);
    XorCommutes(0, t);
    XorNothing(t);
  }

  /** For any values, six further symbols bring the register to a target exactly when they are its checksum. */
  lemma ChecksumIff(values: seq<Word>, symbols: seq<Word>, target: Word)
    requires |symbols| == 6 && FiveBit(symbols) && Narrow(target)
    ensures Polymod(values + symbols) == target <==> symbols == ChecksumFor(values, target)
  {
    hide RunFrom, Pack, Unpack, Xor, Narrow, FiveBit;
    var p := Polymod(values + Blank(6));
    RunConcat(1, values, symbols);
    RunConcat(1, values, Blank(6));
    SymbolsAddUp(RunFrom(1, values), symbols);
    XorIs(p, Pack(symbols), target);
    UnpackPack(symbols);
    BlankNarrow(RunFrom(1, values));
    XorNarrow(p, target);
    PackUnpack(Xor(p, target));
  }

  /** The checksum symbols are five-bit and make the validator's register equal 1. */
  lemma ChecksumMakesOne(values: seq<Word>)
    ensures FiveBit(Checksum(values)) && Polymod(values + Checksum(values)) == 1
  {
    hide RunFrom, Unpack, Xor, FiveBit;
    UnpackFiveBit(Xor(Polymod(values + Blank(6)), 1));
    OneNarrow();
    ChecksumIff(values, Checksum(values), 1);
  }

  lemma OneNarrow()
    ensures Narrow(1) && Narrow(BECH32M)
  {
  }

  /** The register loop both modules write. */
  method RunPolymod(values: seq<Word>) returns (checksum: Word)
    ensures checksum == Polymod(values)
  {
    hide Xor, Shift, Generator, Selected, Top;
    checksum := 1;
    for i := 0 to |values|
      invariant checksum == RunFrom(1, values[..i])
    {
      assert values[..i + 1][..i] == values[..i];
      checksum := Shifted(checksum, values[i]);
    }
    assert values[..|values|] == values;
  }

  /** One turn of the register loop. */
  method Shifted(c: Word, value: Word) returns (checksum: Word)
    ensures checksum == Step(c, value)
  {
    hide Xor, Shift, Generator, Selected, Top;
    var top := Top(c);
    var start := Xor(Shift(c), value);
    checksum := start;
    XorNothing(start);
    for index := 0 to 5
      invariant checksum == Xor(start, Feedback(top, index))
    {
      XorAssociates(start, Feedback(top, index), Selected(top, index));
      checksum := Xor(checksum, Selected(top, index));
    }
  }

  // ---------------------------------------------------------------- addresses

  const SYMBOLS: string := "qpzry9x8gf2tvdw0s3jn54khce6mua7l"
  const BECH32M: Word := 0x2bc830a3

  lemma SymbolShape(i: nat)
    requires i < 32
    ensures |SYMBOLS| == 32 && SYMBOLS[i] != '1' && 33 <= SYMBOLS[i] as int <= 126 && Lower(SYMBOLS[i]) == SYMBOLS[i]
  {
    var symbols := "qpzry9x8gf2tvdw0s3jn54khce6mua7l";
    assert '0' <= symbols[i] <= 'z' && symbols[i] != '1' && !('A' <= symbols[i] <= 'Z');
  }

  lemma SymbolsDiffer(i: nat, j: nat)
    requires i < j < 32
    ensures |SYMBOLS| == 32 && SYMBOLS[i] != SYMBOLS[j]
  {
    var symbols := "qpzry9x8gf2tvdw0s3jn54khce6mua7l";
    assert symbols[i] != symbols[j];
  }

  function SymbolOf(w: Word): char
    requires w < 32
  {
    SmallWord(w);
    SymbolShape(0);
    SYMBOLS[w as int]
  }

  lemma SmallWord(w: Word)
    requires w < 32
    ensures 0 <= w as int < 32
  {
  }

  function ValueOf(c: char): Option<Word>
  {
    match IndexIn(SYMBOLS, c)
    case None => None
    case Some(i) =>
      FoundIndex(SYMBOLS, c);
      SymbolShape(0);
      Some(i as Word)
  }

  lemma ValueOfSymbol(w: Word)
    requires w < 32
    ensures ValueOf(SymbolOf(w)) == Some(w)
  {
    hide SYMBOLS;
    SmallWord(w);
    var i := w as int;
    SymbolShape(0);
    forall j | 0 <= j < i ensures SYMBOLS[j] != SYMBOLS[i] { SymbolsDiffer(j, i); }
    IndexFinds(SYMBOLS, i);
  }

  function TextOf(data: seq<Word>): (s: string)
    requires FiveBit(data)
    ensures |s| == |data|
  {
    if data == [] then "" else TextOf(data[..|data| - 1]) + [SymbolOf(data[|data| - 1])]
  }

  function DataOf(s: string): Option<seq<Word>>
  {
    if s == "" then Some([])
    else
      match DataOf(s[..|s| - 1])
      case None => None
      case Some(front) =>
        match ValueOf(s[|s| - 1])
        case None => None
        case Some(w) => Some(front + [w])
  }

  lemma {:induction false} DataOfText(data: seq<Word>)
    requires FiveBit(data)
    ensures DataOf(TextOf(data)) == Some(data)
  {
    hide ValueOf, SymbolOf;
    if data != [] {
      DataOfText(data[..|data| - 1]);
      ValueOfSymbol(data[|data| - 1]);
      assert TextOf(data)[..|data| - 1] == TextOf(data[..|data| - 1]);
      assert data == data[..|data| - 1] + [data[|data| - 1]];
    }
  }

  /** A prefix character: printable and not upper case. */
  predicate PrefixChar(c: char) { 33 <= c as int <= 126 && Lower(c) == c }

  lemma {:induction false} TextChars(data: seq<Word>)
    requires FiveBit(data)
    ensures forall i | 0 <= i < |data| :: PrefixChar(TextOf(data)[i]) && TextOf(data)[i] != '1'
  {
    hide SYMBOLS, Lower;
    if data != [] {
      TextChars(data[..|data| - 1]);
      SmallWord(data[|data| - 1]);
      SymbolShape(data[|data| - 1] as int);
    }
  }

  function Lower(c: char): char { if 'A' <= c <= 'Z' then (c as int + 32) as char else c }

  function Upper(c: char): char { if 'a' <= c <= 'z' then (c as int - 32) as char else c }

  function Map(f: char -> char, s: string): (r: string)
    ensures |r| == |s| && forall i | 0 <= i < |s| :: r[i] == f(s[i])
  {
    if s == "" then "" else Map(f, s[..|s| - 1]) + [f(s[|s| - 1])]
  }

  /** The position of the last `1`, or -1. */
  function LastSeparator(s: string): (i: int)
    ensures -1 <= i < |s|
  {
    if s == "" then -1 else if s[|s| - 1] == '1' then |s| - 1 else LastSeparator(s[..|s| - 1])
  }

  lemma {:induction false} SeparatorBefore(hrp: string, rest: string)
    requires forall i | 0 <= i < |rest| :: rest[i] != '1'
    ensures LastSeparator(hrp + "1" + rest) == |hrp|
  {
    var s := hrp + "1" + rest;
    if rest != "" {
      assert s[..|s| - 1] == hrp + "1" + rest[..|rest| - 1];
      SeparatorBefore(hrp, rest[..|rest| - 1]);
    }
  }

  function HighBits(hrp: string): (s: seq<Word>)
    ensures |s| == |hrp|
  {
    if hrp == "" then [] else HighBits(hrp[..|hrp| - 1]) + [((hrp[|hrp| - 1] as int) as Word) >> 5]
  }

  function LowBits(hrp: string): (s: seq<Word>)
    ensures |s| == |hrp|
  {
    if hrp == "" then [] else LowBits(hrp[..|hrp| - 1]) + [((hrp[|hrp| - 1] as int) as Word) & 31]
  }

  function Expand(hrp: string): seq<Word> { HighBits(hrp) + [0] + LowBits(hrp) }

  lemma ChecksumFiveBit(values: seq<Word>)
    ensures FiveBit(Checksum(values))
  {
    hide Polymod, Unpack, Xor, FiveBit;
    UnpackFiveBit(Xor(Polymod(values + Blank(6)), 1));
  }

  lemma FiveBitConcat(a: seq<Word>, b: seq<Word>)
    requires FiveBit(a) && FiveBit(b)
    ensures FiveBit(a + b)
  {
  }

  /** What the backend writes for a prefix and five-bit data. */
  function EncodeAddress(hrp: string, data: seq<Word>): string
    requires FiveBit(data)
  {
    var symbols := Checksum(Expand(hrp) + data);
    ChecksumFiveBit(Expand(hrp) + data);
    FiveBitConcat(data, symbols);
    hrp + "1" + TextOf(data + symbols)
  }

  /** The address check: characters, case, separator, data symbols, and a residue of 1 or of the later variant. */
  function ValidateAddress(value: string): Result<bool>
  {
    if exists i | 0 <= i < |value| :: (value[i] as int) < 33 || value[i] as int > 126
      then Rejected("invalid characters")
    else if Map(Lower, value) != value && Map(Upper, value) != value then Rejected("mixed case")
    else
      var normalized := Map(Lower, value);
      var separator := LastSeparator(normalized);
      if separator < 1 || separator + 7 > |normalized| then Rejected("separator position")
      else
        match DataOf(normalized[separator + 1..])
        case None => Rejected("invalid data characters")
        case Some(data) =>
          var residue := Polymod(Expand(normalized[..separator]) + data);
          if residue == 1 || residue == BECH32M then Ok(true) else Rejected("checksum mismatch")
  }

  ghost predicate LowerPrefix(hrp: string) { hrp != "" && forall i | 0 <= i < |hrp| :: PrefixChar(hrp[i]) }

  lemma LowerText(hrp: string, data: seq<Word>)
    requires LowerPrefix(hrp) && FiveBit(data)
    ensures var s := hrp + "1" + TextOf(data);
            && Map(Lower, s) == s && LastSeparator(s) == |hrp|
            && forall i | 0 <= i < |s| :: 33 <= s[i] as int <= 126
  {
    hide LastSeparator, TextOf;
    var s := hrp + "1" + TextOf(data);
    TextChars(data);
    SeparatorBefore(hrp, TextOf(data));
    forall i | 0 <= i < |s| ensures PrefixChar(s[i]) {
      if i < |hrp| {
        assert s[i] == hrp[i];
      } else if i > |hrp| {
        assert s[i] == TextOf(data)[i - |hrp| - 1];
      }
    }
    assert Map(Lower, s) == s;
  }

  /** For any lower-case prefix and data the check accepts exactly two endings: the checksums of its two residues. */
  lemma AcceptedEndings(hrp: string, data: seq<Word>, symbols: seq<Word>)
    requires LowerPrefix(hrp) && FiveBit(data) && |symbols| == 6 && FiveBit(symbols)
    ensures FiveBit(data + symbols)
    ensures ValidateAddress(hrp + "1" + TextOf(data + symbols)).Ok?
            <==> symbols == ChecksumFor(Expand(hrp) + data, 1) || symbols == ChecksumFor(Expand(hrp) + data, BECH32M)
  {
    hide Expand, Polymod, ChecksumFor, TextOf, DataOf, LastSeparator, FiveBit, Map, BECH32M;
    FiveBitConcat(data, symbols);
    var s := hrp + "1" + TextOf(data + symbols);
    LowerText(hrp, data + symbols);
    DataOfText(data + symbols);
    assert s[..|hrp|] == hrp && s[|hrp| + 1..] == TextOf(data + symbols);
    OneNarrow();
    assert Expand(hrp) + (data + symbols) == Expand(hrp) + data + symbols;
    ChecksumIff(Expand(hrp) + data, symbols, 1);
    ChecksumIff(Expand(hrp) + data, symbols, BECH32M);
  }

  /** Whatever the backend writes under a lower-case prefix, the address check of the other module accepts. */
  lemma EncodedIsAccepted(hrp: string, data: seq<Word>)
    requires LowerPrefix(hrp) && FiveBit(data)
    ensures ValidateAddress(EncodeAddress(hrp, data)).Ok?
  {
    hide Expand, Polymod, ValidateAddress, TextOf, FiveBit, LowerPrefix;
    ChecksumFiveBit(Expand(hrp) + data);
    AcceptedEndings(hrp, data, Checksum(Expand(hrp) + data));
  }

  /** The register values on the way through the prefix `a` and the symbols of the known address `a12uel5l`. */
  lemma KnownSteps()
    ensures Step(1, 3) == 0x23 && Step(0x23, 0) == 0x460 && Step(0x460, 1) == 0x8c01
    ensures Step(0x8c01, 10) == 0x11802a && Step(0x11802a, 28) == 0x230055c && Step(0x230055c, 25) == 0x3d6afc2b
    ensures Step(0x3d6afc2b, 31) == 0x2f84386 && Step(0x2f84386, 20) == 0x24622766 && Step(0x24622766, 31) == 1
  {
  }

  lemma RunSnoc(c: Word, s: seq<Word>, v: Word)
    ensures RunFrom(c, s + [v]) == Step(RunFrom(c, s), v)
  {
    hide Step;
    assert (s + [v])[..|s|] == s && (s + [v])[|s|] == v;
  }

  lemma NoSteps()
    ensures RunFrom(1, []) == 1
  {
  }

  /** The first valid test vector of BIP 173 fixes the generators: the checksum of the empty data under `a`. */
  lemma KnownChecksum()
    ensures Checksum([3, 0, 1]) == [10, 28, 25, 31, 20, 31]
  {
    hide Step, Unpack, RunFrom, Pack, Blank, Narrow;
    KnownSteps();
    NoSteps();
    var symbols: seq<Word> := [10, 28, 25, 31, 20, 31];
    var s0: seq<Word> := [];
    var s1 := s0 + [3];
    var s2 := s1 + [0];
    var s3 := s2 + [1];
    var s4 := s3 + [10];
    var s5 := s4 + [28];
    var s6 := s5 + [25];
    var s7 := s6 + [31];
    var s8 := s7 + [20];
    var s9 := s8 + [31];
    RunSnoc(1, s0, 3);
    RunSnoc(1, s1, 0);
    RunSnoc(1, s2, 1);
    RunSnoc(1, s3, 10);
    RunSnoc(1, s4, 28);
    RunSnoc(1, s5, 25);
    RunSnoc(1, s6, 31);
    RunSnoc(1, s7, 20);
    RunSnoc(1, s8, 31);
    assert s9 == [3, 0, 1] + symbols;
    OneNarrow();
    ChecksumIff([3, 0, 1], symbols, 1);
  }

  /** The register values on the way through the symbols of `a1lqfn3a`. */
  lemma VariantSteps()
    ensures Step(0x8c01, 31) == 0x11803f && Step(0x11803f, 0) == 0x23007e0 && Step(0x23007e0, 9) == 0x3d6aabbb
    ensures Step(0x3d6aabbb, 19) == 0x2f2b18a && Step(0x2f2b18a, 17) == 0x253c66e3
    ensures Step(0x253c66e3, 29) == 0x2bc830a3
  {
  }

  /** The residue of a prefix of one character and six symbols, step by step. */
  lemma NineSteps(p: Word, q: Word, r: Word, s: seq<Word>)
    requires |s| == 6
    ensures RunFrom(1, [p, q, r] + s)
            == Step(Step(Step(Step(Step(Step(RunFrom(1, [p, q, r]), s[0]), s[1]), s[2]), s[3]), s[4]), s[5])
    ensures RunFrom(1, [p, q, r]) == Step(Step(Step(1, p), q), r)
  {
    hide Step, RunFrom;
    NoSteps();
    var t := [p, q, r];
    RunSnoc(1, [], p);
    RunSnoc(1, [p], q);
    RunSnoc(1, [p, q], r);
    assert [] + [p] == [p] && [p] + [q] == [p, q] && [p, q] + [r] == t;
    forall i | 0 <= i < 6 ensures RunFrom(1, t + s[..i + 1]) == Step(RunFrom(1, t + s[..i]), s[i]) {
      assert t + s[..i + 1] == t + s[..i] + [s[i]];
      RunSnoc(1, t + s[..i], s[i]);
    }
    assert t + s[..0] == t && t + s[..6] == t + s;
    var r1, r2, r3 := RunFrom(1, t + s[..1]), RunFrom(1, t + s[..2]), RunFrom(1, t + s[..3]);
    var r4, r5 := RunFrom(1, t + s[..4]), RunFrom(1, t + s[..5]);
    assert r1 == Step(RunFrom(1, t), s[0]) && r2 == Step(r1, s[1]) && r3 == Step(r2, s[2]);
    assert r4 == Step(r3, s[3]) && r5 == Step(r4, s[4]) && RunFrom(1, t + s) == Step(r5, s[5]);
  }

  /** The first valid test vector of BIP 350 fixes the residue of the later variant. */
  lemma KnownVariant()
    ensures ChecksumFor([3, 0, 1], BECH32M) == [31, 0, 9, 19, 17, 29]
  {
    hide Step, Unpack, RunFrom, Pack, Blank, Narrow;
    KnownSteps();
    VariantSteps();
    var symbols: seq<Word> := [31, 0, 9, 19, 17, 29];
    NineSteps(3, 0, 1, symbols);
    OneNarrow();
    ChecksumIff([3, 0, 1], symbols, BECH32M);
  }

  lemma {:induction false} HighAt(hrp: string, i: nat)
    requires i < |hrp|
    ensures HighBits(hrp)[i] == ((hrp[i] as int) as Word) >> 5
  {
    if i < |hrp| - 1 { HighAt(hrp[..|hrp| - 1], i); }
  }

  lemma {:induction false} LowAt(hrp: string, i: nat)
    requires i < |hrp|
    ensures LowBits(hrp)[i] == ((hrp[i] as int) as Word) & 31
  {
    if i < |hrp| - 1 { LowAt(hrp[..|hrp| - 1], i); }
  }

  lemma Rejoin(w: Word)
    ensures ((w >> 5) << 5) | (w & 31) == w && w & 31 < 32
  {
  }

  /** The checksum covers every prefix character twice: its high bits before a zero and its five low bits after it,
      which joined give the character back. */
  lemma ExpandCovers(hrp: string, i: nat)
    requires i < |hrp|
    ensures |Expand(hrp)| == 2 * |hrp| + 1 && Expand(hrp)[|hrp|] == 0
    ensures var high, low := Expand(hrp)[i], Expand(hrp)[|hrp| + 1 + i];
            low < 32 && (high << 5) | low == (hrp[i] as int) as Word
  {
    hide HighBits, LowBits;
    HighAt(hrp, i);
    LowAt(hrp, i);
    Rejoin((hrp[i] as int) as Word);
  }

  lemma {:induction false} TextAt(data: seq<Word>, i: nat)
    requires FiveBit(data) && i < |data|
    ensures TextOf(data)[i] == SymbolOf(data[i])
  {
    hide SymbolOf;
    if i < |data| - 1 { TextAt(data[..|data| - 1], i); }
  }

  lemma TextOfSix(s: seq<Word>)
    requires FiveBit(s) && |s| == 6
    ensures TextOf(s)
            == [SymbolOf(s[0]), SymbolOf(s[1]), SymbolOf(s[2]), SymbolOf(s[3]), SymbolOf(s[4]), SymbolOf(s[5])]
  {
    hide SymbolOf, TextOf;
    forall i | 0 <= i < 6 ensures TextOf(s)[i] == SymbolOf(s[i]) { TextAt(s, i); }
  }

  lemma ExpandKnown()
    ensures Expand("a") == [3, 0, 1]
  {
    ExpandCovers("a", 0);
    HighAt("a", 0);
    LowAt("a", 0);
  }

  lemma KnownTexts()
    ensures TextOf([10, 28, 25, 31, 20, 31]) == "2uel5l" && TextOf([31, 0, 9, 19, 17, 29]) == "lqfn3a"
  {
    hide SymbolOf, TextOf;
    SymbolTable();
    TextOfSix([10, 28, 25, 31, 20, 31]);
    TextOfSix([31, 0, 9, 19, 17, 29]);
  }

  lemma KnownEnding(symbols: seq<Word>)
    requires symbols == ChecksumFor([3, 0, 1], 1) || symbols == ChecksumFor([3, 0, 1], BECH32M)
    requires |symbols| == 6 && FiveBit(symbols)
    ensures ValidateAddress("a1" + TextOf(symbols)).Ok?
  {
    hide ChecksumFor, Expand, TextOf, ValidateAddress, BECH32M;
    ExpandKnown();
    AcceptedEndings("a", [], symbols);
    assert Expand("a") + [] == [3, 0, 1] && [] + symbols == symbols && "a" + "1" == "a1";
  }

  /** The symbol table of BIP 173, and the known addresses under `a`: what is written for empty data, and the two
      texts that are accepted. */
  lemma KnownAddresses()
    ensures forall w: Word | w < 32 ::
              0 <= w as int < 32 && SymbolOf(w) == "qpzry9x8gf2tvdw0s3jn54khce6mua7l"[w as int]
    ensures EncodeAddress("a", []) == "a12uel5l"
    ensures ValidateAddress("a12uel5l").Ok? && ValidateAddress("a1lqfn3a").Ok?
  {
    hide ChecksumFor, Expand, TextOf, SymbolOf, ValidateAddress;
    SymbolTable();
    ExpandKnown();
    KnownChecksum();
    KnownVariant();
    KnownTexts();
    KnownEnding([10, 28, 25, 31, 20, 31]);
    KnownEnding([31, 0, 9, 19, 17, 29]);
    assert Expand("a") + [] == [3, 0, 1] && [] + Checksum([3, 0, 1]) == [10, 28, 25, 31, 20, 31];
    assert "a" + "1" + "2uel5l" == "a12uel5l" && "a1" + "2uel5l" == "a12uel5l" && "a1" + "lqfn3a" == "a1lqfn3a";
  }

  lemma SymbolTable()
    ensures forall w: Word | w < 32 ::
              0 <= w as int < 32 && SymbolOf(w) == "qpzry9x8gf2tvdw0s3jn54khce6mua7l"[w as int]
  {
    forall w: Word | w < 32
      ensures 0 <= w as int < 32 && SymbolOf(w) == "qpzry9x8gf2tvdw0s3jn54khce6mua7l"[w as int]
    {
      SmallWord(w);
    }
  }

  // ---------------------------------------------------------------- regrouping bits

  lemma Bracket(n: int, q: int)
    requires q >= 1
    ensures n / q * q <= n < n / q * q + q
  {
  }

  lemma Scale(x: int, y: int, a: int)
    requires x <= y && a >= 0
    ensures x * a <= y * a
  {
  }

  lemma Quotient(n: int, d: int, q: int)
    requires q >= 1 && d * q <= n < d * q + q
    ensures n / q == d
  {
    var k := n / q - d;
    assert k * q == n - n % q - d * q;
    assert k >= 1 ==> k * q >= q;
    assert k <= -1 ==> k * q <= -q;
  }

  lemma DivideTwice(n: int, a: int, b: int)
    requires a >= 1 && b >= 1
    ensures a * b >= 1 && n / (a * b) == n / a / b
  {
    var m := n / a;
    var d := m / b;
    Bracket(n, a);
    Bracket(m, b);
    Scale(d * b, m, a);
    Scale(m + 1, d * b + b, a);
    Reorder(d, a, b);
    Scale(1, a, b);
    Quotient(n, d, a * b);
  }

  lemma Reorder(d: int, a: int, b: int)
    ensures d * b * a == d * (a * b) && (d * b + b) * a == d * (a * b) + a * b
  {
  }

  /** Appending one input value to the accumulator leaves the part already written unchanged. */
  lemma AppendValue(n: nat, v: int, f: nat, bits: nat)
    requires f >= 1 && 0 <= v < Power2(f)
    ensures (n * Power2(f) + v) / Power2(f + bits) == n / Power2(bits)
  {
    PowerSum(f, bits);
    DivideTwice(n * Power2(f) + v, Power2(f), Power2(bits));
    PowerAtLeastTwo(f);
    QuotientRemainder(n, v, Power2(f));
  }

  lemma PowerAtLeastTwo(f: nat)
    requires f >= 1
    ensures Power2(f) >= 2
  {
  }

  /** Writing the next group extends the written part by its bits. */
  lemma TakeGroup(n: nat, bits: nat, t: nat)
    ensures n / Power2(bits + t) * Power2(t) + n / Power2(bits) % Power2(t) == n / Power2(bits)
  {
    PowerSum(bits, t);
    DivideTwice(n, Power2(bits), Power2(t));
    Split(n / Power2(bits), Power2(t));
  }

  lemma Split(m: int, p: int)
    requires p >= 1
    ensures m / p * p + m % p == m
  {
  }

  /** The left-over bits are moved up to fill the last group. */
  lemma LastGroup(n: nat, bits: nat, t: nat)
    requires bits <= t
    ensures n / Power2(bits) * Power2(t) + n * Power2(t - bits) % Power2(t) == n * Power2(t - bits)
  {
    PowerSum(t - bits, bits);
    DivideTwice(n * Power2(t - bits), Power2(t - bits), Power2(bits));
    Cancel(n, Power2(t - bits));
    Split(n * Power2(t - bits), Power2(t));
  }

  lemma Cancel(n: int, p: int)
    requires p >= 1
    ensures n * p / p == n
  {
    Quotient(n * p, n, p);
  }

  /** The written groups and the held bits account for every bit read, and denote the accumulator. */
  ghost predicate Balanced(accumulator: int, bits: int, values: seq<int>, toBits: nat, read: int)
  {
    && accumulator >= 0 && 0 <= bits < toBits && bits + toBits * |values| == read
    && Below(Power2(toBits), values) && Num(Power2(toBits), values) == accumulator / Power2(bits)
  }

  /** Regroups `fromBits`-bit values into `toBits`-bit values, padding the last one with zero bits: the result
      denotes the same number followed by fewer padding bits than one group. */
  method ConvertBits(data: seq<int>, fromBits: nat, toBits: nat) returns (values: seq<int>)
    requires fromBits >= 1 && toBits >= 1 && Below(Power2(fromBits), data)
    ensures Below(Power2(toBits), values)
    ensures 0 <= toBits * |values| - fromBits * |data| < toBits
    ensures Num(Power2(toBits), values)
            == Num(Power2(fromBits), data) * Power2(toBits * |values| - fromBits * |data|)
  {
    hide Power2, Balanced;
    var accumulator, bits := 0, 0;
    values := [];
    NothingRead(toBits);
    for i := 0 to |data|
      invariant accumulator == Num(Power2(fromBits), data[..i])
      invariant Balanced(accumulator, bits, values, toBits, fromBits * i)
    {
      assert data[..i + 1][..i] == data[..i];
      NextValue(fromBits, i);
      accumulator, bits, values := ReadValue(accumulator, bits, values, data[i], fromBits, toBits, fromBits * i);
    }
    assert data[..|data|] == data;
    values := PadLast(accumulator, bits, values, toBits, fromBits * |data|);
  }

  lemma NothingRead(toBits: nat)
    requires toBits >= 1
    ensures Balanced(0, 0, [], toBits, 0)
  {
  }

  lemma NextValue(fromBits: nat, i: nat)
    ensures fromBits * (i + 1) == fromBits * i + fromBits
  {
  }

  method ReadValue(before: int, held: int, written: seq<int>, v: int, fromBits: nat, toBits: nat, read: nat)
    returns (accumulator: int, bits: int, values: seq<int>)
    requires fromBits >= 1 && toBits >= 1 && 0 <= v < Power2(fromBits)
    requires Balanced(before, held, written, toBits, read)
    ensures accumulator == before * Power2(fromBits) + v
    ensures Balanced(accumulator, bits, values, toBits, read + fromBits)
  {
    hide Power2;
    AppendValue(before, v, fromBits, held);
    Scale(0, before, Power2(fromBits));
    accumulator := before * Power2(fromBits) + v;
    values, bits := TakeGroups(accumulator, held + fromBits, toBits, written);
  }

  method PadLast(accumulator: int, bits: int, written: seq<int>, toBits: nat, read: nat) returns (values: seq<int>)
    requires toBits >= 1 && Balanced(accumulator, bits, written, toBits, read)
    ensures Below(Power2(toBits), values) && 0 <= toBits * |values| - read < toBits
    ensures Num(Power2(toBits), values) == accumulator * Power2(toBits * |values| - read)
  {
    hide Power2;
    values := written;
    if bits > 0 {
      LastGroup(accumulator, bits, toBits);
      var last := accumulator * Power2(toBits - bits) % Power2(toBits);
      NumSnoc(Power2(toBits), values, last);
      NextValue(toBits, |values|);
      values := values + [last];
      assert toBits * |values| - read == toBits - bits;
    } else {
      ZeroPower();
      assert toBits * |values| - read == 0;
      assert Num(Power2(toBits), values) == accumulator;
    }
  }

  /** Writes whole groups while the accumulator holds one. */
  method TakeGroups(accumulator: nat, held: nat, toBits: nat, before: seq<int>) returns (values: seq<int>, bits: nat)
    requires toBits >= 1 && Below(Power2(toBits), before)
    requires Num(Power2(toBits), before) == accumulator / Power2(held)
    ensures bits < toBits && bits + toBits * |values| == held + toBits * |before|
    ensures Below(Power2(toBits), values) && Num(Power2(toBits), values) == accumulator / Power2(bits)
  {
    hide Power2;
    values, bits := before, held;
    while bits >= toBits
      invariant bits + toBits * |values| == held + toBits * |before|
      invariant Below(Power2(toBits), values) && Num(Power2(toBits), values) == accumulator / Power2(bits)
    {
      bits := bits - toBits;
      TakeGroup(accumulator, bits, toBits);
      var group := accumulator / Power2(bits) % Power2(toBits);
      NumSnoc(Power2(toBits), values, group);
      values := values + [group];
    }
  }

  lemma ZeroPower()
    ensures Power2(0) == 1
  {
  }
}
