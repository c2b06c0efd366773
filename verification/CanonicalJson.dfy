/** The canonical JSON profile QBC-CJSON-V1: printing, strict parsing and domain-separated hashing. */
module CanonicalJson {
  import opened Results
  import opened Collections
  import opened Utf8

  /** `Other` is a float or any other value the profile has no form for. */
  datatype Value =
    | Null
    | Bool(b: bool)
    | Int(i: int)
    | Str(s: Text)
    | Arr(items: seq<Value>)
    | Obj(members: map<Text, Value>)
    | Other

  const MIN_INT := -0x8000_0000_0000_0000
  const MAX_INT := 0x7fff_ffff_ffff_ffff

  const QUOTE := 34
  const BACKSLASH := 92
  const COMMA := 44
  const COLON := 58
  const NULL_TEXT: Text := [110, 117, 108, 108]
  const TRUE_TEXT: Text := [116, 114, 117, 101]
  const FALSE_TEXT: Text := [102, 97, 108, 115, 101]

  /** The values that have a canonical form. */
  predicate Encodable(v: Value)
  {
    match v
    case Int(i) => MIN_INT <= i <= MAX_INT
    case Str(s) => Scalars(s)
    case Arr(items) => forall x | x in items :: Encodable(x)
    case Obj(members) => forall k | k in members :: Scalars(k) && Encodable(members[k])
    case Other => false
    case _ => true
  }

  // ---------------------------------------------------------------- strings

  function HexDigit(d: int): int { if d < 10 then 48 + d else 87 + d }

  function EscapeChar(c: int): Text
  {
    if c == QUOTE then [BACKSLASH, QUOTE]
    else if c == BACKSLASH then [BACKSLASH, BACKSLASH]
    else if c < 0x20 then [BACKSLASH, 117, 48, 48, HexDigit(c / 16), HexDigit(c % 16)]
    else [c]
  }

  /** Escaped characters and the closing quote. */
  function QuoteTail(s: Text): Text
  {
    if s == [] then [QUOTE] else EscapeChar(s[0]) + QuoteTail(s[1..])
  }

  function HexValue(d: int): Option<int>
  {
    if 48 <= d < 58 then Some(d - 48) else if 97 <= d < 103 then Some(d - 87) else None
  }

  /** One character inside quotes with the text after it. */
  function ReadChar(t: Text): Option<(int, Text)>
    ensures ReadChar(t).Some? ==> |ReadChar(t).value.1| < |t|
  {
    if t == [] || t[0] == QUOTE || t[0] < 0x20 then None
    else if t[0] != BACKSLASH then Some((t[0], t[1..]))
    else if |t| >= 2 && (t[1] == QUOTE || t[1] == BACKSLASH) then Some((t[1], t[2..]))
    else if |t| >= 6 && t[1] == 117 && t[2] == 48 && t[3] == 48 && HexValue(t[4]).Some? && HexValue(t[5]).Some? then
      Some((HexValue(t[4]).value * 16 + HexValue(t[5]).value, t[6..]))
    else None
  }

  /** The rest of a string literal, and what follows its closing quote. */
  function ReadString(t: Text): (r: Option<(Text, Text)>)
    ensures r.Some? ==> |r.value.1| < |t|
    decreases |t|
  {
    if t == [] then None
    else if t[0] == QUOTE then Some(([], t[1..]))
    else
      match ReadChar(t)
      case None => None
      case Some((c, rest)) =>
        match ReadString(rest)
        case None => None
        case Some((s, end)) => Some(([c] + s, end))
  }

  lemma ReadEscaped(c: int, rest: Text)
    requires Scalar(c)
    ensures ReadChar(EscapeChar(c) + rest) == Some((c, rest))
    ensures EscapeChar(c)[0] != QUOTE
  {
    if 0x20 <= c && c != QUOTE && c != BACKSLASH {
      assert (EscapeChar(c) + rest)[1..] == rest;
    } else if c < 0x20 {
      assert c == c / 16 * 16 + c % 16;
      assert (EscapeChar(c) + rest)[6..] == rest;
    } else {
      assert (EscapeChar(c) + rest)[2..] == rest;
    }
  }

  lemma {:induction false} ReadQuoted(s: Text, rest: Text)
    requires Scalars(s)
    ensures ReadString(QuoteTail(s) + rest) == Some((s, rest))
  {
    hide ReadChar, EscapeChar;
    if s != [] {
      var t := QuoteTail(s[1..]) + rest;
      ReadEscaped(s[0], t);
      ReadQuoted(s[1..], rest);
      assert QuoteTail(s) + rest == EscapeChar(s[0]) + t;
      assert [s[0]] + s[1..] == s;
    } else {
      assert (QuoteTail(s) + rest)[1..] == rest;
    }
  }

  /** Escapes a string character by character; surrogates are refused. */
  method EncodeString(s: Text) returns (r: Result<Bytes>)
    ensures r.Ok? <==> Scalars(s)
    ensures r.Ok? ==> Scalars(QuoteTail(s)) && r.value == Encode([QUOTE] + QuoteTail(s))
  {
    hide EscapeChar, Encode;
    var pieces: Text := [QUOTE];
    for i := 0 to |s|
      invariant Scalars(s[..i]) && Scalars(pieces)
      invariant pieces + QuoteTail(s[i..]) == [QUOTE] + QuoteTail(s)
    {
      if !Scalar(s[i]) { return Rejected("surrogate code point"); }
      assert s[i..][1..] == s[i + 1..];
      EscapeScalars(s[i]);
      pieces := pieces + EscapeChar(s[i]);
    }
    assert s[|s|..] == [] && s[..|s|] == s;
    QuoteScalars(s);
    return Ok(Encode(pieces + [QUOTE]));
  }

  lemma EscapeScalars(c: int)
    requires Scalar(c)
    ensures Scalars(EscapeChar(c))
  {
  }

  // ---------------------------------------------------------------- integers

  predicate Digit(c: int) { 48 <= c < 58 }

  function NatText(n: nat): (t: Text)
    ensures t != []
  {
    if n < 10 then [48 + n] else NatText(n / 10) + [48 + n % 10]
  }

  function IntText(i: int): Text { if i < 0 then [45] + NatText(-i) else NatText(i) }

  /** How many digits a text starts with. */
  function DigitRun(t: Text): (n: nat)
    ensures n <= |t|
  {
    if t == [] || !Digit(t[0]) then 0 else 1 + DigitRun(t[1..])
  }

  function NatOf(digits: Text): int
  {
    if digits == [] then 0 else NatOf(digits[..|digits| - 1]) * 10 + digits[|digits| - 1] - 48
  }

  /** A run of digits as an integer with the given sign. */
  function ReadDigits(t: Text, sign: int): (r: Option<(int, Text)>)
    ensures r.Some? ==> |r.value.1| < |t|
  {
    var n := DigitRun(t);
    var i := sign * NatOf(t[..n]);
    if n == 0 || !(MIN_INT <= i <= MAX_INT) then None else Some((i, t[n..]))
  }

  function ReadInt(t: Text): (r: Option<(int, Text)>)
    ensures r.Some? ==> |r.value.1| < |t|
  {
    if t != [] && t[0] == 45 then ReadDigits(t[1..], -1) else ReadDigits(t, 1)
  }

  /** The text after an integer must not prolong it. */
  predicate Stops(t: Text) { t == [] || !Digit(t[0]) }

  lemma {:induction false} NatTextDigits(n: nat)
    ensures forall i | 0 <= i < |NatText(n)| :: Digit(NatText(n)[i])
    ensures NatOf(NatText(n)) == n
  {
    if n >= 10 {
      NatTextDigits(n / 10);
      assert NatText(n)[..|NatText(n)| - 1] == NatText(n / 10);
    } else {
      assert NatOf([48 + n][..0]) == 0;
    }
  }

  lemma {:induction false} DigitRunStops(digits: Text, rest: Text)
    requires (forall i | 0 <= i < |digits| :: Digit(digits[i])) && Stops(rest)
    ensures DigitRun(digits + rest) == |digits|
  {
    if digits != [] {
      assert (digits + rest)[1..] == digits[1..] + rest;
      DigitRunStops(digits[1..], rest);
    } else {
      assert digits + rest == rest;
    }
  }

  lemma ReadPrintedDigits(n: nat, sign: int, rest: Text)
    requires MIN_INT <= sign * n <= MAX_INT && Stops(rest)
    ensures ReadDigits(NatText(n) + rest, sign) == Some((sign * n, rest))
    ensures Digit(NatText(n)[0])
  {
    var digits := NatText(n);
    NatTextDigits(n);
    DigitRunStops(digits, rest);
    assert (digits + rest)[..|digits|] == digits && (digits + rest)[|digits|..] == rest;
  }

  lemma ReadPrintedInt(i: int, rest: Text)
    requires MIN_INT <= i <= MAX_INT && Stops(rest)
    ensures ReadInt(IntText(i) + rest) == Some((i, rest))
    ensures IntText(i) != [] && (IntText(i)[0] == 45 || Digit(IntText(i)[0]))
  {
    hide NatText, ReadDigits;
    if i < 0 {
      ReadPrintedDigits(-i, -1, rest);
      assert (IntText(i) + rest)[1..] == NatText(-i) + rest;
    } else {
      ReadPrintedDigits(i, 1, rest);
    }
  }

  // ---------------------------------------------------------------- key order

  /** The first of a set of keys by UTF-8 bytes. */
  ghost predicate First(keys: set<Text>, k: Text)
    requires forall x | x in keys :: Scalars(x)
  {
    k in keys && forall x | x in keys && x != k :: Less(Encode(k), Encode(x))
  }

  lemma {:induction false} FirstExists(keys: set<Text>)
    requires (forall x | x in keys :: Scalars(x)) && keys != {}
    ensures exists k :: First(keys, k)
    decreases |keys|
  {
    var k :| k in keys;
    var rest := keys - {k};
    if rest == {} {
      assert keys == {k};
      assert First(keys, k);
    } else {
      FirstExists(rest);
      var m :| First(rest, m);
      LessTotal(Encode(k), Encode(m));
      if Less(Encode(k), Encode(m)) {
        forall x | x in rest && x != m ensures Less(Encode(k), Encode(x)) {
          LessTransitive(Encode(k), Encode(m), Encode(x));
        }
        assert First(keys, k);
      } else {
        if Encode(k) == Encode(m) { EncodeInjective(k, m); }
        assert First(keys, m);
      }
    }
  }

  /** A set of keys sorted by UTF-8 bytes. */
  ghost function SortedKeys(keys: set<Text>): (s: seq<Text>)
    requires forall x | x in keys :: Scalars(x)
    ensures |s| == |keys| && forall x :: x in s <==> x in keys
    decreases |keys|
  {
    if keys == {} then []
    else
      FirstExists(keys);
      var k :| First(keys, k);
      [k] + SortedKeys(keys - {k})
  }

  ghost predicate Ascending(s: seq<Text>) { forall i, j | 0 <= i < j < |s| :: Less(s[i], s[j]) }

  /** Sorting gives the one listing of the keys in ascending code point order. */
  lemma {:induction false} SortedKeysAscend(keys: set<Text>)
    requires forall x | x in keys :: Scalars(x)
    ensures Ascending(SortedKeys(keys))
    decreases |keys|
  {
    hide Ascending, First, Less, Scalars;
    if keys != {} {
      var k := SortedHead(keys);
      SortedKeysAscend(keys - {k});
      forall x | x in SortedKeys(keys - {k}) ensures Less(k, x) { FirstIsBelow(keys, k, x); }
      AscendingCons(k, SortedKeys(keys - {k}));
    } else {
      assert Ascending([]) by { NothingAscends(); }
    }
  }

  lemma NothingAscends()
    ensures Ascending([])
  {
  }

  lemma SortedHead(keys: set<Text>) returns (k: Text)
    requires (forall x | x in keys :: Scalars(x)) && keys != {}
    ensures First(keys, k) && k in keys && SortedKeys(keys) == [k] + SortedKeys(keys - {k})
  {
    hide Encode, Less, Scalar;
    FirstExists(keys);
    var s := SortedKeys(keys);
    k :| First(keys, k) && s == [k] + SortedKeys(keys - {k});
  }

  lemma FirstIsBelow(keys: set<Text>, k: Text, x: Text)
    requires (forall y | y in keys :: Scalars(y)) && First(keys, k) && x in keys && x != k
    ensures Less(k, x)
  {
    EncodeKeepsOrder(k, x);
  }

  lemma AscendingCons(k: Text, s: seq<Text>)
    requires Ascending(s) && forall x | x in s :: Less(k, x)
    ensures Ascending([k] + s)
  {
  }

  lemma {:induction false} AscendingUnique(s: seq<Text>, t: seq<Text>)
    requires Ascending(s) && Ascending(t) && forall x :: x in s <==> x in t
    ensures s == t
  {
    assert s != [] ==> s[0] in t;
    assert t != [] ==> t[0] in s;
    if s != [] && t != [] {
      LessTotal(s[0], t[0]);
      forall x ensures x in s[1..] <==> x in t[1..] {
        AscendingTail(s, x);
        AscendingTail(t, x);
      }
      AscendingUnique(s[1..], t[1..]);
    }
  }

  /** Sorting by UTF-8 bytes gives the only ascending listing of the keys. */
  lemma SortedKeysUnique(keys: set<Text>, s: seq<Text>)
    requires (forall x | x in keys :: Scalars(x)) && Ascending(s) && forall x :: x in s <==> x in keys
    ensures s == SortedKeys(keys)
  {
    SortedKeysAscend(keys);
    AscendingUnique(s, SortedKeys(keys));
  }

  lemma AscendingTail(s: seq<Text>, x: Text)
    requires Ascending(s) && s != []
    ensures x in s[1..] <==> x in s && x != s[0]
  {
    LessTotal(s[0], s[0]);
    assert s == [s[0]] + s[1..];
    if x in s[1..] {
      var i :| 0 <= i < |s| - 1 && s[1..][i] == x;
      assert s[i + 1] == x;
    }
  }

  // ---------------------------------------------------------------- printing

  /** The canonical text of a value that has one. */
  ghost function Print(v: Value): Text
    requires Encodable(v)
    decreases v, 1, 0
  {
    match v
    case Null => NULL_TEXT
    case Bool(b) => if b then TRUE_TEXT else FALSE_TEXT
    case Int(i) => IntText(i)
    case Str(s) => [QUOTE] + QuoteTail(s)
    case Arr(items) => if items == [] then [91, 93] else [91] + PrintItems(items)
    case Obj(members) =>
      if members == map[] then [123, 125] else [123] + PrintMembers(v, SortedKeys(members.Keys))
    case Other => []
  }

  /** Items separated by commas, and the closing bracket. */
  ghost function PrintItems(items: seq<Value>): Text
    requires items != [] && forall x | x in items :: Encodable(x)
    decreases items, 0, 0
  {
    Print(items[0]) + if |items| == 1 then [93] else [COMMA] + PrintItems(items[1..])
  }

  /** Members separated by commas, and the closing brace. */
  ghost function PrintMembers(v: Value, keys: seq<Text>): Text
    requires v.Obj? && Encodable(v) && keys != [] && forall k | k in keys :: k in v.members
    decreases v, 0, |keys|
  {
    [QUOTE] + QuoteTail(keys[0]) + [COLON] + Print(v.members[keys[0]])
    + if |keys| == 1 then [125] else [COMMA] + PrintMembers(v, keys[1..])
  }

  // ---------------------------------------------------------------- reading

  /** A decoder for the printed grammar: the value a text starts with, and what follows it. */
  function Read(t: Text): (r: Option<(Value, Text)>)
    ensures r.Some? ==> |r.value.1| < |t|
    decreases |t|, 0
  {
    if t == [] then None
    else if t[0] == NULL_TEXT[0] then if NULL_TEXT <= t then Some((Null, t[4..])) else None
    else if t[0] == TRUE_TEXT[0] then if TRUE_TEXT <= t then Some((Bool(true), t[4..])) else None
    else if t[0] == FALSE_TEXT[0] then if FALSE_TEXT <= t then Some((Bool(false), t[5..])) else None
    else if t[0] == QUOTE then
      (match ReadString(t[1..])
       case None => None
       case Some((s, rest)) => Some((Str(s), rest)))
    else if t[0] == 91 then
      if |t| > 1 && t[1] == 93 then Some((Arr([]), t[2..]))
      else
        (match ReadItems(t[1..])
         case None => None
         case Some((items, rest)) => Some((Arr(items), rest)))
    else if t[0] == 123 then
      if |t| > 1 && t[1] == 125 then Some((Obj(map[]), t[2..]))
      else
        (match ReadMembers(t[1..])
         case None => None
         case Some((members, rest)) => Some((Obj(members), rest)))
    else
      match ReadInt(t)
      case None => None
      case Some((i, rest)) => Some((Int(i), rest))
  }

  function ReadItems(t: Text): (r: Option<(seq<Value>, Text)>)
    ensures r.Some? ==> |r.value.1| < |t|
    decreases |t|, 1
  {
    match Read(t)
    case None => None
    case Some((v, rest)) =>
      if rest == [] then None
      else if rest[0] == 93 then Some(([v], rest[1..]))
      else if rest[0] != COMMA then None
      else
        match ReadItems(rest[1..])
        case None => None
        case Some((items, end)) => Some(([v] + items, end))
  }

  /** Adds a member to those read after it; a repeated key is refused. */
  function WithMember(key: Text, v: Value, after: Option<(map<Text, Value>, Text)>)
    : (r: Option<(map<Text, Value>, Text)>)
    ensures r.Some? ==> after.Some? && r.value.1 == after.value.1
  {
    match after
    case None => None
    case Some((members, end)) => if key in members then None else Some((members[key := v], end))
  }

  function ReadMembers(t: Text): (r: Option<(map<Text, Value>, Text)>)
    ensures r.Some? ==> |r.value.1| < |t|
    decreases |t|, 1
  {
    if t == [] || t[0] != QUOTE then None
    else
      match ReadString(t[1..])
      case None => None
      case Some((key, afterKey)) =>
        if afterKey == [] || afterKey[0] != COLON then None
        else
          match Read(afterKey[1..])
          case None => None
          case Some((v, rest)) =>
            if rest == [] then None
            else if rest[0] == 125 then Some((map[key := v], rest[1..]))
            else if rest[0] != COMMA then None
            else WithMember(key, v, ReadMembers(rest[1..]))
  }

  function Load(t: Text): Option<Value>
  {
    match Read(t)
    case None => None
    case Some((v, rest)) => if rest == [] then Some(v) else None
  }

  lemma PrintHead(v: Value)
    requires Encodable(v)
    ensures Print(v) != [] && Print(v)[0] != 93
  {
    match v
    case Int(i) => ReadPrintedInt(i, []);
    case _ =>
  }

  lemma ReadPrintedLeaf(v: Value, rest: Text)
    requires Encodable(v) && Stops(rest) && !v.Arr? && !v.Obj?
    ensures Read(Print(v) + rest) == Some((v, rest))
  {
    hide ReadInt, IntText, QuoteTail, ReadString;
    var t := Print(v) + rest;
    match v
    case Null => assert t[4..] == rest;
    case Bool(b) => assert t[if b then 4 else 5..] == rest;
    case Int(i) =>
      ReadPrintedInt(i, rest);
      assert t[0] == IntText(i)[0];
    case Str(s) =>
      ReadQuoted(s, rest);
      assert t[1..] == QuoteTail(s) + rest;
  }

  lemma ReadBracket(t: Text, items: seq<Value>, rest: Text)
    requires t != [] && t[0] != 93 && ReadItems(t) == Some((items, rest))
    ensures Read([91] + t) == Some((Arr(items), rest))
  {
    hide ReadItems;
    assert ([91] + t)[1..] == t;
  }

  lemma ReadBrace(t: Text, members: map<Text, Value>, rest: Text)
    requires t != [] && t[0] != 125 && ReadMembers(t) == Some((members, rest))
    ensures Read([123] + t) == Some((Obj(members), rest))
  {
    hide ReadMembers;
    assert ([123] + t)[1..] == t;
  }

  lemma ReadEmpty(rest: Text)
    ensures Read([91, 93] + rest) == Some((Arr([]), rest)) && Read([123, 125] + rest) == Some((Obj(map[]), rest))
  {
    assert ([91, 93] + rest)[2..] == rest && ([123, 125] + rest)[2..] == rest;
  }

  /** Reading what was printed gives the value back and stops exactly at its end. */
  lemma {:induction false} ReadPrinted(v: Value, rest: Text)
    requires Encodable(v) && Stops(rest)
    ensures Read(Print(v) + rest) == Some((v, rest))
    decreases v, 1, 0
  {
    hide Read, ReadItems, ReadMembers, PrintItems, PrintMembers, SortedKeys;
    if v.Arr? {
      var items := v.items;
      if items == [] {
        ReadEmpty(rest);
      } else {
        ItemsHead(items);
        ReadPrintedItems(items, rest);
        ReadBracket(PrintItems(items) + rest, items, rest);
        assert [91] + PrintItems(items) + rest == [91] + (PrintItems(items) + rest);
      }
    } else if v.Obj? {
      var keys := SortedKeys(v.members.Keys);
      if v.members == map[] {
        ReadEmpty(rest);
      } else {
        SortedDistinct(v.members.Keys);
        MembersHead(v, keys);
        ReadPrintedMembers(v, keys, rest);
        ReadBrace(PrintMembers(v, keys) + rest, Restrict(v.members, keys), rest);
        assert [123] + PrintMembers(v, keys) + rest == [123] + (PrintMembers(v, keys) + rest);
        assert Restrict(v.members, keys) == v.members;
      }
    } else {
      ReadPrintedLeaf(v, rest);
    }
  }

  lemma ItemsHead(items: seq<Value>)
    requires items != [] && forall x | x in items :: Encodable(x)
    ensures PrintItems(items) != [] && PrintItems(items)[0] != 93
  {
    PrintHead(items[0]);
  }

  lemma MembersHead(v: Value, keys: seq<Text>)
    requires v.Obj? && Encodable(v) && keys != [] && forall k | k in keys :: k in v.members
    ensures PrintMembers(v, keys) != [] && PrintMembers(v, keys)[0] == QUOTE
  {
  }

  /** One item as printed, followed by a comma or the closing bracket. */
  lemma ReadItem(value: Value, printed: Text, tail: Text)
    requires Read(printed + tail) == Some((value, tail)) && tail != []
    ensures var r := ReadItems(printed + tail);
            && (tail[0] == 93 ==> r == Some(([value], tail[1..])))
            && (tail[0] == COMMA ==>
                  r == if ReadItems(tail[1..]).None? then None
                       else Some(([value] + ReadItems(tail[1..]).value.0, ReadItems(tail[1..]).value.1)))
  {
    hide Read;
  }

  lemma {:induction false} ReadPrintedItems(items: seq<Value>, rest: Text)
    requires items != [] && forall x | x in items :: Encodable(x)
    ensures ReadItems(PrintItems(items) + rest) == Some((items, rest))
    decreases items, 0, 0
  {
    hide Read, ReadItems, Print;
    var tail := if |items| == 1 then [93] + rest else [COMMA] + (PrintItems(items[1..]) + rest);
    assert PrintItems(items) + rest == Print(items[0]) + tail;
    ReadPrinted(items[0], tail);
    ReadItem(items[0], Print(items[0]), tail);
    if |items| == 1 {
      assert tail[1..] == rest && items == [items[0]];
    } else {
      assert tail[1..] == PrintItems(items[1..]) + rest;
      ReadPrintedItems(items[1..], rest);
      assert items == [items[0]] + items[1..];
    }
  }

  ghost function Restrict(m: map<Text, Value>, keys: seq<Text>): map<Text, Value>
  {
    map k | k in m && k in keys :: m[k]
  }

  lemma SortedDistinct(keys: set<Text>)
    requires forall x | x in keys :: Scalars(x)
    ensures Distinct(SortedKeys(keys))
  {
    SortedKeysAscend(keys);
    var s := SortedKeys(keys);
    forall i, j | 0 <= i < j < |s| ensures s[i] != s[j] {
      LessTotal(s[i], s[i]);
    }
  }

  /** One member as printed, followed by a comma or the closing brace. */
  lemma ReadMember(key: Text, value: Value, printed: Text, tail: Text)
    requires Scalars(key) && Read(printed + tail) == Some((value, tail)) && tail != []
    ensures var r := ReadMembers([QUOTE] + QuoteTail(key) + [COLON] + printed + tail);
            && (tail[0] == 125 ==> r == Some((map[key := value], tail[1..])))
            && (tail[0] == COMMA ==> r == WithMember(key, value, ReadMembers(tail[1..])))
  {
    hide Read, ReadString, QuoteTail;
    var t := [QUOTE] + QuoteTail(key) + [COLON] + printed + tail;
    var afterKey := [COLON] + (printed + tail);
    assert t[1..] == QuoteTail(key) + afterKey && afterKey[1..] == printed + tail;
    ReadQuoted(key, afterKey);
  }

  lemma {:induction false} ReadPrintedMembers(v: Value, keys: seq<Text>, rest: Text)
    requires v.Obj? && Encodable(v) && keys != [] && Distinct(keys) && forall k | k in keys :: k in v.members
    ensures ReadMembers(PrintMembers(v, keys) + rest) == Some((Restrict(v.members, keys), rest))
    decreases v, 0, |keys|
  {
    hide Read, ReadMembers, QuoteTail, Print;
    var key, value := keys[0], v.members[keys[0]];
    var tail := if |keys| == 1 then [125] + rest else [COMMA] + (PrintMembers(v, keys[1..]) + rest);
    assert PrintMembers(v, keys) + rest == [QUOTE] + QuoteTail(key) + [COLON] + Print(value) + tail;
    ReadPrinted(value, tail);
    ReadMember(key, value, Print(value), tail);
    assert keys == [key] + keys[1..];
    if |keys| == 1 {
      assert tail[1..] == rest;
      assert Restrict(v.members, keys) == map[key := value];
    } else {
      assert tail[1..] == PrintMembers(v, keys[1..]) + rest;
      ReadPrintedMembers(v, keys[1..], rest);
      assert key !in keys[1..];
      assert Restrict(v.members, keys) == Restrict(v.members, keys[1..])[key := value];
    }
  }

  // ---------------------------------------------------------------- bytes in, bytes out

  /** The canonical bytes of a value, or the refusal of a value without canonical form. */
  ghost function CanonicalBytes(v: Value): Result<Bytes>
  {
    if Encodable(v) && Scalars(Print(v)) then Ok(Encode(Print(v)))
    else Rejected("value has no canonical form")
  }

  /** A parser accepts bytes whose decoded value prints to those very bytes. */
  ghost function ParseWith(load: Text -> Option<Value>, data: Bytes): Result<Value>
  {
    match Decode(data)
    case None => Rejected("invalid UTF-8")
    case Some(t) =>
      match load(t)
      case None => Rejected("invalid JSON")
      case Some(v) =>
        if CanonicalBytes(v) == Ok(data) then Ok(v) else Rejected("input is not in canonical form")
  }

  ghost function Parse(data: Bytes): Result<Value> { ParseWith(Load, data) }

  lemma {:induction false} QuoteScalars(s: Text)
    requires Scalars(s)
    ensures Scalars(QuoteTail(s))
  {
    if s != [] {
      QuoteScalars(s[1..]);
      assert forall x | x in EscapeChar(s[0]) :: Scalar(x);
    }
  }

  /** Printed text never holds a surrogate, so every value with a canonical form has canonical bytes. */
  lemma {:induction false} PrintScalars(v: Value)
    requires Encodable(v)
    ensures Scalars(Print(v))
    decreases v, 1, 0
  {
    hide QuoteTail, PrintItems, PrintMembers, SortedKeys, NatText;
    match v
    case Int(i) => NatTextDigits(if i < 0 then -i else i);
    case Str(s) => QuoteScalars(s);
    case Arr(items) => if items != [] { PrintItemsScalars(items); }
    case Obj(members) => if members != map[] { PrintMembersScalars(v, SortedKeys(members.Keys)); }
    case _ =>
  }

  lemma {:induction false} PrintItemsScalars(items: seq<Value>)
    requires items != [] && forall x | x in items :: Encodable(x)
    ensures Scalars(PrintItems(items))
    decreases items, 0, 0
  {
    PrintScalars(items[0]);
    if |items| > 1 { PrintItemsScalars(items[1..]); }
  }

  lemma {:induction false} PrintMembersScalars(v: Value, keys: seq<Text>)
    requires v.Obj? && Encodable(v) && keys != [] && forall k | k in keys :: k in v.members
    ensures Scalars(PrintMembers(v, keys))
    decreases v, 0, |keys|
  {
    QuoteScalars(keys[0]);
    PrintScalars(v.members[keys[0]]);
    if |keys| > 1 { PrintMembersScalars(v, keys[1..]); }
  }

  lemma LoadPrinted(v: Value)
    requires Encodable(v)
    ensures Load(Print(v)) == Some(v)
  {
    ReadPrinted(v, []);
    assert Print(v) + [] == Print(v);
  }

  /** The parser accepts exactly the canonical bytes of the value it returns, and accepts those of every value. */
  lemma ParseIffCanonical(data: Bytes, v: Value)
    ensures Parse(data) == Ok(v) <==> CanonicalBytes(v) == Ok(data)
  {
    if CanonicalBytes(v) == Ok(data) {
      LoadPrinted(v);
      DecodeEncoded(Print(v));
    }
  }

  /** Any JSON reader that reads printed texts correctly, whatever it does with others, makes the same parser. */
  lemma ReaderDoesNotMatter(load: Text -> Option<Value>, data: Bytes, v: Value)
    requires forall x | Encodable(x) :: load(Print(x)) == Some(x)
    ensures ParseWith(load, data) == Ok(v) <==> Parse(data) == Ok(v)
  {
    ParseIffCanonical(data, v);
    if CanonicalBytes(v) == Ok(data) {
      DecodeEncoded(Print(v));
    }
  }

  /** Every value with a canonical form has canonical bytes, and different values have different ones. */
  lemma CanonicalInjective(v: Value, w: Value)
    requires Encodable(v) && Encodable(w)
    ensures CanonicalBytes(v).Ok? && (CanonicalBytes(v) == CanonicalBytes(w) <==> v == w)
  {
    PrintScalars(v);
    PrintScalars(w);
    ParseIffCanonical(CanonicalBytes(v).value, v);
    ParseIffCanonical(CanonicalBytes(v).value, w);
  }

  /** Text input is parsed like its UTF-8 bytes. */
  ghost function ParseText(t: Text): Result<Value>
  {
    if !Scalars(t) then Rejected("text has no UTF-8 form")
    else
      match Load(t)
      case None => Rejected("invalid JSON")
      case Some(v) => if CanonicalBytes(v) == Ok(Encode(t)) then Ok(v) else Rejected("input is not in canonical form")
  }

  lemma TextLikeBytes(t: Text)
    ensures Scalars(t) ==> ParseText(t) == Parse(Encode(t))
    ensures forall v :: ParseText(t) == Ok(v) <==> Encodable(v) && t == Print(v)
  {
    if Scalars(t) {
      DecodeEncoded(t);
    }
    forall v ensures ParseText(t) == Ok(v) <==> Encodable(v) && t == Print(v) {
      if Encodable(v) {
        PrintScalars(v);
        LoadPrinted(v);
        if ParseText(t) == Ok(v) { EncodeInjective(Print(v), t); }
      }
    }
  }

  /** Every integer in a value, at any depth, is a signed 64-bit one. */
  predicate IntegersFit(v: Value)
  {
    match v
    case Int(i) => MIN_INT <= i <= MAX_INT
    case Arr(items) => forall x | x in items :: IntegersFit(x)
    case Obj(members) => forall k | k in members :: IntegersFit(members[k])
    case _ => true
  }

  lemma {:induction false} EncodableIntegersFit(v: Value)
    requires Encodable(v)
    ensures IntegersFit(v)
  {
    match v
    case Arr(items) =>
      forall x | x in items ensures IntegersFit(x) { EncodableIntegersFit(x); }
    case Obj(members) =>
      forall k | k in members ensures IntegersFit(members[k]) { EncodableIntegersFit(members[k]); }
    case _ =>
  }

  /** The version 2 parser of persisted and exchanged objects: a size limit, any JSON reader with unbounded integers,
      an integer check of its own, and the comparison with the canonical bytes. */
  ghost function ParseBounded(load: Text -> Option<Value>, data: Bytes, maximum: int): Result<Value>
  {
    if |data| > maximum then Rejected("object is too large")
    else
      match Decode(data)
      case None => Rejected("invalid UTF-8")
      case Some(t) =>
        match load(t)
        case None => Rejected("invalid JSON")
        case Some(v) =>
          if !IntegersFit(v) then Rejected("integer out of range")
          else if CanonicalBytes(v) == Ok(data) then Ok(v) else Rejected("bytes are not canonical")
  }

  /** Within its size limit it accepts exactly what the strict parser accepts, with the same value. */
  lemma ParsersAgree(load: Text -> Option<Value>, data: Bytes, maximum: int, v: Value)
    requires forall x | Encodable(x) :: load(Print(x)) == Some(x)
    ensures ParseBounded(load, data, maximum) == Ok(v) <==> |data| <= maximum && Parse(data) == Ok(v)
  {
    ReaderDoesNotMatter(load, data, v);
    ParseIffCanonical(data, v);
    if CanonicalBytes(v) == Ok(data) {
      EncodableIntegersFit(v);
      DecodeEncoded(Print(v));
    }
  }

  // ---------------------------------------------------------------- hashing

  const HASH_PREFIX: Bytes := [81, 66, 67, 45, 67, 74, 83, 79, 78, 45, 86, 49, 0]

  predicate DomainStart(c: int) { 97 <= c <= 122 || 48 <= c <= 57 }

  predicate DomainChar(c: int) { DomainStart(c) || c == 46 || c == 95 || c == 47 || c == 45 }

  /** A token of 1 to 64 characters from lower-case letters, digits and `._/-`, starting with a letter or digit. */
  predicate DomainValid(domain: Text)
  {
    1 <= |domain| <= 64 && DomainStart(domain[0]) && forall i | 0 <= i < |domain| :: DomainChar(domain[i])
  }

  ghost function Preimage(domain: Text, v: Value): Result<Bytes>
  {
    if !DomainValid(domain) then Rejected("domain is not a token")
    else
      match CanonicalBytes(v)
      case Rejected(reason) => Rejected(reason)
      case Ok(bytes) => Ok(HASH_PREFIX + domain + [0] + bytes)
  }

  lemma {:induction false} SplitAtZero(a: Bytes, b: Bytes, x: Bytes, y: Bytes)
    requires (forall i | 0 <= i < |a| :: a[i] != 0) && (forall i | 0 <= i < |b| :: b[i] != 0)
    requires a + [0] + x == b + [0] + y
    ensures a == b && x == y
  {
    if a == [] || b == [] {
      assert (a + [0] + x)[0] == (b + [0] + y)[0];
      assert (a + [0] + x)[1..] == (b + [0] + y)[1..];
    } else {
      assert (a + [0] + x)[0] == a[0] && (b + [0] + y)[0] == b[0];
      assert (a + [0] + x)[1..] == a[1..] + [0] + x && (b + [0] + y)[1..] == b[1..] + [0] + y;
      SplitAtZero(a[1..], b[1..], x, y);
      assert a == [a[0]] + a[1..] && b == [b[0]] + b[1..];
    }
  }

  /** The hash preimage determines both the domain and the value. */
  lemma PreimageInjective(d1: Text, v1: Value, d2: Text, v2: Value)
    requires Preimage(d1, v1).Ok? && Preimage(d1, v1) == Preimage(d2, v2)
    ensures d1 == d2 && v1 == v2
  {
    hide CanonicalBytes, Encodable;
    var x, y := CanonicalBytes(v1).value, CanonicalBytes(v2).value;
    var p, q := HASH_PREFIX + d1 + [0] + x, HASH_PREFIX + d2 + [0] + y;
    assert p[|HASH_PREFIX|..] == d1 + [0] + x && q[|HASH_PREFIX|..] == d2 + [0] + y;
    SplitAtZero(d1, d2, x, y);
    SameBytes(v1, v2);
  }

  lemma SameBytes(v: Value, w: Value)
    requires CanonicalBytes(v).Ok? && CanonicalBytes(w) == CanonicalBytes(v)
    ensures v == w
  {
    CanonicalInjective(v, w);
  }

  ghost function HashCanonical(hash: Bytes -> int, domain: Text, v: Value): Result<int>
  {
    match Preimage(domain, v)
    case Rejected(reason) => Rejected(reason)
    case Ok(p) => Ok(hash(p))
  }

  /** Equal hashes mean the same domain and value, or two different preimages that collide. */
  lemma EqualHashes(hash: Bytes -> int, d1: Text, v1: Value, d2: Text, v2: Value)
    requires HashCanonical(hash, d1, v1).Ok? && HashCanonical(hash, d1, v1) == HashCanonical(hash, d2, v2)
    ensures Preimage(d1, v1).Ok? && Preimage(d2, v2).Ok?
    ensures var x, y := Preimage(d1, v1).value, Preimage(d2, v2).value;
            (d1 == d2 && v1 == v2) || (x != y && hash(x) == hash(y))
  {
    if Preimage(d1, v1) == Preimage(d2, v2) { PreimageInjective(d1, v1, d2, v2); }
  }
}
