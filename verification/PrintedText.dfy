/** What canonical texts look like: laws that fix the text of every value without saying how it is printed. */
module PrintedText {
  import opened Results
  import opened Numerals
  import opened Utf8
  import opened CanonicalJson

  /** ASCII text as code points. */
  function Ascii(s: string): (t: Text)
    ensures |t| == |s| && forall i | 0 <= i < |s| :: t[i] == s[i] as int
  {
    seq(|s|, i requires 0 <= i < |s| => s[i] as int)
  }

  lemma LiteralTexts()
    ensures Print(Null) == Ascii("null")
    ensures Print(Bool(true)) == Ascii("true") && Print(Bool(false)) == Ascii("false")
    ensures Print(Str([])) == Ascii("\"\"")
    ensures Print(Arr([])) == Ascii("[]") && Print(Obj(map[])) == Ascii("{}")
  {
  }

  /** Which values have a canonical form. */
  lemma CanonicalFormExists(v: Value)
    ensures CanonicalBytes(v).Ok?
            <==> match v
                 case Int(i) => -Power2(63) <= i < Power2(63)
                 case Str(s) => Scalars(s)
                 case Arr(items) => forall x | x in items :: CanonicalBytes(x).Ok?
                 case Obj(members) => forall k | k in members :: Scalars(k) && CanonicalBytes(members[k]).Ok?
                 case Other => false
                 case _ => true
  {
    hide Print, Scalars;
    FormIffEncodable(v);
    match v
    case Int(i) => LargePowers();
    case Arr(items) => forall x | x in items { FormIffEncodable(x); }
    case Obj(members) => forall k | k in members { FormIffEncodable(members[k]); }
    case _ =>
  }

  lemma FormIffEncodable(v: Value)
    ensures CanonicalBytes(v).Ok? <==> Encodable(v)
  {
    hide Encodable, Print, Encode, Scalars;
    if Encodable(v) { PrintScalars(v); }
  }

  lemma LargePowers()
    ensures Power2(63) == 0x8000_0000_0000_0000
  {
    assert Power2(16) == 0x1_0000;
    PowerSum(16, 16);
    PowerSum(32, 16);
    PowerSum(48, 15);
    assert Power2(15) == 0x8000;
  }

  // ---------------------------------------------------------------- integers

  /** Integers are written in decimal, with a minus sign and without leading zeros. */
  lemma IntegerTexts(n: nat, d: nat)
    requires d < 10 && 10 * n + d <= MAX_INT + 1
    ensures Print(Int(d)) == [48 + d]
    ensures d > 0 ==> Print(Int(0 - d)) == Ascii("-") + [48 + d]
    ensures n > 0 && 10 * n + d <= MAX_INT ==> Print(Int(10 * n + d)) == Print(Int(n)) + [48 + d]
    ensures n > 0 ==> Print(Int(0 - (10 * n + d))) == Print(Int(0 - n)) + [48 + d]
  {
    hide NatText;
    NatTextSteps(n, d);
  }

  lemma NatTextSteps(n: nat, d: nat)
    requires d < 10
    ensures NatText(d) == [48 + d]
    ensures n > 0 ==> NatText(10 * n + d) == NatText(n) + [48 + d]
  {
    assert (10 * n + d) / 10 == n && (10 * n + d) % 10 == d;
  }

  // ---------------------------------------------------------------- strings

  lemma {:induction false} QuoteTailSnoc(s: Text, c: int)
    ensures QuoteTail(s) != []
    ensures QuoteTail(s + [c]) == QuoteTail(s)[..|QuoteTail(s)| - 1] + EscapeChar(c) + [QUOTE]
  {
    hide EscapeChar;
    if s != [] {
      assert (s + [c])[1..] == s[1..] + [c];
      QuoteTailSnoc(s[1..], c);
    } else {
      assert [c][1..] == [] && QuoteTail([]) == [QUOTE];
    }
  }

  lemma StringReads(s: Text)
    requires Scalars(s)
    ensures Encodable(Str(s)) && Print(Str(s)) == [QUOTE] + QuoteTail(s)
  {
  }

  /** A text without its last character. */
  function Open(t: Text): (r: Text)
    requires t != []
    ensures |r| == |t| - 1
  {
    t[..|t| - 1]
  }

  lemma OpenConcat(c: int, t: Text)
    requires t != []
    ensures Open([c] + t) == [c] + Open(t)
  {
  }

  /** Quotes and backslashes get a backslash, control characters a six-character escape in lower-case hexadecimal, and
      all other characters stand for themselves. */
  lemma StringGrows(s: Text, c: int)
    requires Scalars(s) && Scalar(c)
    ensures Encodable(Str(s + [c])) && Print(Str(s)) != []
    ensures Print(Str(s + [c]))
            == Open(Print(Str(s)))
               + (if c == 34 then Ascii("\\\"") else if c == 92 then Ascii("\\\\")
                  else if c < 32 then Ascii("\\u00") + [Ascii("0123456789abcdef")[c / 16],
                                                        Ascii("0123456789abcdef")[c % 16]]
                  else [c])
               + Ascii("\"")
  {
    hide EscapeChar, Print, QuoteTail, Encodable;
    StringReads(s);
    StringReads(s + [c]);
    QuoteTailSnoc(s, c);
    OpenConcat(QUOTE, QuoteTail(s));
    EscapeReads(c);
    assert Ascii("\"") == [QUOTE];
  }

  lemma EscapeReads(c: int)
    requires Scalar(c)
    ensures EscapeChar(c)
            == if c == 34 then Ascii("\\\"") else if c == 92 then Ascii("\\\\")
               else if c < 32 then Ascii("\\u00") + [Ascii("0123456789abcdef")[c / 16],
                                                     Ascii("0123456789abcdef")[c % 16]]
               else [c]
  {
  }

  // ---------------------------------------------------------------- arrays

  lemma {:induction false} ItemsSnoc(items: seq<Value>, x: Value)
    requires items != [] && Encodable(x) && forall y | y in items :: Encodable(y)
    ensures PrintItems(items) != []
    ensures PrintItems(items + [x]) == Open(PrintItems(items)) + [COMMA] + Print(x) + [93]
  {
    hide Print;
    var all := items + [x];
    assert all[0] == items[0] && all[1..] == items[1..] + [x];
    if |items| == 1 {
      assert items[1..] + [x] == [x];
    } else {
      ItemsSnoc(items[1..], x);
    }
  }

  /** Arrays hold their items in order, separated by commas alone. */
  lemma ArrayGrows(items: seq<Value>, x: Value)
    requires Encodable(Arr(items)) && Encodable(x)
    ensures Encodable(Arr(items + [x])) && Print(Arr(items)) != []
    ensures Print(Arr(items + [x]))
            == Open(Print(Arr(items))) + Ascii(if items == [] then "" else ",") + Print(x) + Ascii("]")
  {
    hide Print, PrintItems;
    assert Ascii("") == [] && Ascii(",") == [COMMA] && Ascii("]") == [93];
    ArrayReads(items);
    ArrayReads(items + [x]);
    if items != [] {
      ItemsSnoc(items, x);
      OpenConcat(91, PrintItems(items));
    } else {
      assert items + [x] == [x];
      OneItem(x);
    }
  }

  lemma ArrayReads(items: seq<Value>)
    requires forall x | x in items :: Encodable(x)
    ensures Encodable(Arr(items))
    ensures Print(Arr(items)) == if items == [] then [91, 93] else [91] + PrintItems(items)
  {
    hide PrintItems;
  }

  lemma OneItem(x: Value)
    requires Encodable(x)
    ensures PrintItems([x]) == Print(x) + [93]
  {
  }

  // ---------------------------------------------------------------- objects

  /** One member as it is written. */
  ghost function Member(k: Text, v: Value): Text
    requires Encodable(v)
  {
    [QUOTE] + QuoteTail(k) + [COLON] + Print(v)
  }

  lemma MembersReads(o: Value, keys: seq<Text>)
    requires o.Obj? && Encodable(o) && keys != [] && forall k | k in keys :: k in o.members
    ensures PrintMembers(o, keys)
            == Member(keys[0], o.members[keys[0]])
               + if |keys| == 1 then [125] else [COMMA] + PrintMembers(o, keys[1..])
  {
    hide Print, QuoteTail;
  }

  /** Members of an object are printed alike in an object that agrees on them. */
  lemma {:induction false} MembersSnoc(o: Value, after: Value, keys: seq<Text>, k: Text)
    requires o.Obj? && after.Obj? && Encodable(o) && Encodable(after) && keys != [] && k in after.members
    requires forall x | x in keys :: x in o.members && x in after.members && o.members[x] == after.members[x]
    ensures PrintMembers(o, keys) != []
    ensures PrintMembers(after, keys + [k])
            == Open(PrintMembers(o, keys)) + [COMMA] + Member(k, after.members[k]) + [125]
    decreases |keys|
  {
    hide Print, Member, PrintMembers;
    var all := keys + [k];
    assert all[0] == keys[0] && all[1..] == keys[1..] + [k];
    MembersReads(o, keys);
    MembersReads(after, all);
    if |keys| == 1 {
      assert all[1..] == [k];
      MembersReads(after, [k]);
    } else {
      MembersSnoc(o, after, keys[1..], k);
    }
  }

  /** The keys after a greatest one is added. */
  lemma GreatestLast(keys: set<Text>, k: Text)
    requires Scalars(k) && forall x | x in keys :: Scalars(x) && Less(Encode(x), Encode(k))
    ensures SortedKeys(keys + {k}) == SortedKeys(keys) + [k]
  {
    hide Encode, Less, Scalars, SortedKeys;
    SortedKeysAscend(keys);
    var s := SortedKeys(keys);
    forall x | x in s ensures Less(x, k) { EncodeKeepsOrder(x, k); }
    AscendingSnoc(s, k);
    SortedKeysUnique(keys + {k}, s + [k]);
  }

  lemma AscendingSnoc(s: seq<Text>, k: Text)
    requires Ascending(s) && forall x | x in s :: Less(x, k)
    ensures Ascending(s + [k])
  {
    hide Less;
  }

  lemma ObjectReads(m: map<Text, Value>)
    requires Encodable(Obj(m)) && m != map[]
    ensures m.Keys != {} && (forall x | x in m.Keys :: Scalars(x)) && SortedKeys(m.Keys) != []
    ensures Print(Obj(m)) == [123] + PrintMembers(Obj(m), SortedKeys(m.Keys))
  {
    hide PrintMembers;
  }

  lemma EncodableWith(m: map<Text, Value>, k: Text, v: Value)
    requires Encodable(Obj(m)) && Scalars(k) && Encodable(v)
    ensures Encodable(Obj(m[k := v])) && m[k := v] != map[] && m[k := v].Keys == m.Keys + {k}
  {
    assert k in m[k := v];
  }

  /** The text between the braces of an object with members. */
  lemma MembersGrow(m: map<Text, Value>, k: Text, v: Value)
    requires m != map[] && Encodable(Obj(m)) && Scalars(k) && Encodable(v) && Encodable(Obj(m[k := v]))
    requires forall x | x in m :: Less(Encode(x), Encode(k))
    ensures Print(Obj(m)) != []
    ensures Print(Obj(m[k := v])) == Open(Print(Obj(m))) + [COMMA] + Member(k, v) + [125]
  {
    hide PrintMembers, Print, SortedKeys, Encode, Less, Encodable, Member;
    ObjectReads(m);
    var keys, after := SortedKeys(m.Keys), Obj(m[k := v]);
    EncodableWith(m, k, v);
    GreatestLast(m.Keys, k);
    NotBelowItself(Encode(k));
    ObjectReads(after.members);
    MembersSnoc(Obj(m), after, keys, k);
    OpenConcat(123, PrintMembers(Obj(m), keys));
  }

  lemma OneMember(k: Text, v: Value)
    requires Scalars(k) && Encodable(v) && Encodable(Obj(map[k := v]))
    ensures Print(Obj(map[k := v])) == [123] + Member(k, v) + [125]
  {
    hide PrintMembers, Print, Encodable, Member;
    var o := Obj(map[k := v]);
    assert o.members.Keys == {k};
    ObjectReads(o.members);
    assert SortedKeys(o.members.Keys) == [k] by { AscendingSnoc([], k); SortedKeysUnique({k}, [k]); }
    MembersReads(o, [k]);
  }

  /** An object holds its members by ascending UTF-8 bytes of their keys: one whose key is greater than all others is
      written last, after a comma, as its quoted key, a colon and its value. Every object is built by such steps. */
  lemma ObjectGrows(m: map<Text, Value>, k: Text, v: Value)
    requires Encodable(Obj(m)) && Scalars(k) && Encodable(v)
    requires forall x | x in m :: Less(Encode(x), Encode(k))
    ensures Encodable(Obj(m[k := v])) && Encodable(Str(k)) && Print(Obj(m)) != []
    ensures Print(Obj(m[k := v]))
            == Open(Print(Obj(m))) + Ascii(if m == map[] then "" else ",") + Print(Str(k)) + Ascii(":") + Print(v)
               + Ascii("}")
  {
    hide PrintMembers, Print, SortedKeys, Encode, Less, Encodable, Member;
    EncodableWith(m, k, v);
    StringReads(k);
    assert Ascii(",") == [COMMA] && Ascii(":") == [COLON] && Ascii("}") == [125] && Ascii("") == [];
    if m != map[] {
      MembersGrow(m, k, v);
    } else {
      OneMember(k, v);
      assert m[k := v] == map[k := v];
      EmptyObject();
    }
    MemberText(k, v, if m == map[] then [123] else Open(Print(Obj(m))) + [COMMA]);
  }

  lemma EmptyObject()
    ensures Encodable(Obj(map[])) && Print(Obj(map[])) == [123, 125]
  {
  }

  lemma MemberText(k: Text, v: Value, before: Text)
    requires Scalars(k) && Encodable(v) && Encodable(Str(k))
    ensures before + Member(k, v) + [125] == before + Print(Str(k)) + [COLON] + Print(v) + [125]
  {
    hide QuoteTail;
    StringReads(k);
  }

  lemma NotBelowItself(s: seq<int>)
    ensures !Less(s, s)
  {
    LessTotal(s, s);
  }

  // ---------------------------------------------------------------- bytes

  /** The examples of section 7 of RFC 3629 with two, three and four bytes to a character. */
  lemma KnownEncodings()
    ensures Encode([0x41, 0x2262, 0x391, 0x2E]) == [0x41, 0xE2, 0x89, 0xA2, 0xCE, 0x91, 0x2E]
    ensures Encode([0x65E5, 0x672C, 0x8A9E]) == [0xE6, 0x97, 0xA5, 0xE6, 0x9C, 0xAC, 0xE8, 0xAA, 0x9E]
    ensures Encode([0xFEFF, 0x233B4]) == [0xEF, 0xBB, 0xBF, 0xF0, 0xA3, 0x8E, 0xB4]
  {
    assert EncodePoint(0x2262) == [0xE2, 0x89, 0xA2] && EncodePoint(0x391) == [0xCE, 0x91];
    assert EncodePoint(0x65E5) == [0xE6, 0x97, 0xA5] && EncodePoint(0x672C) == [0xE6, 0x9C, 0xAC];
    assert EncodePoint(0x8A9E) == [0xE8, 0xAA, 0x9E];
    assert EncodePoint(0xFEFF) == [0xEF, 0xBB, 0xBF] && EncodePoint(0x233B4) == [0xF0, 0xA3, 0x8E, 0xB4];
  }

  /** What is hashed: the profile's name, the domain and the canonical text, parted by zero bytes. */
  lemma PreimageReads(domain: Text, v: Value)
    requires DomainValid(domain) && Encodable(v)
    ensures Scalars(Print(v))
    ensures Preimage(domain, v) == Ok(Ascii("QBC-CJSON-V1") + [0] + domain + [0] + Encode(Print(v)))
  {
    hide Print, Encode, DomainValid;
    PrintScalars(v);
    assert Ascii("QBC-CJSON-V1") + [0] == HASH_PREFIX;
  }

  predicate LowerOrDigit(c: int) { ('a' as int <= c <= 'z' as int) || ('0' as int <= c <= '9' as int) }

  /** Domains are the tokens of at most 64 such characters and, behind the first, dots, underscores, slashes and
      hyphens; none holds the zero byte that ends it. */
  lemma DomainsAreTokens(domain: Text, v: Value)
    requires Encodable(v)
    ensures Preimage(domain, v).Ok?
            <==> && 1 <= |domain| <= 64 && LowerOrDigit(domain[0])
                 && forall i | 0 < i < |domain| :: LowerOrDigit(domain[i]) || domain[i] in Ascii("._/-")
    ensures Preimage(domain, v).Ok? ==> 0 !in domain
  {
    hide Print, Encode, Encodable;
    FormIffEncodable(v);
    var marks := Ascii("._/-");
    assert marks == [46, 95, 47, 45];
  }
}
