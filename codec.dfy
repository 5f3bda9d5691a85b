/** The byte form of an archived document. `Serialize` and `Parse` stand in for
    `JSON.stringify` and `JSON.parse`, `Compress` and `Decompress` for gzip and
    gunzip. The encoding is a tagged, length-prefixed byte code (not JSON text and
    not DEFLATE); what the archive relies on, and what is proved here, is that
    parsing inverts serialising, that the parser only accepts what the serialiser
    produces, and that gunzip inverts gzip. */
module Codec {
  import opened Outcomes
  import opened Json

  type byte = x: int | 0 <= x < 256

  // ---- unbounded naturals, seven bits per byte, low bits first

  function EncNat(n: nat): (r: seq<byte>)
    ensures r != []
    decreases n
  {
    if n < 128 then [n] else [128 + n % 128] + EncNat(n / 128)
  }

  /** Reads one natural; a continuation byte followed by a zero tail is not the
      serialiser's form and is refused. */
  function DecNat(s: seq<byte>): (r: Option<(nat, seq<byte>)>)
    ensures r.Some? ==> |r.value.1| < |s|
    decreases |s|
  {
    if s == [] then None
    else if s[0] < 128 then Some((s[0], s[1..]))
    else match DecNat(s[1..])
      case None => None
      case Some((m, rest)) => if m == 0 then None else Some((s[0] - 128 + 128 * m, rest))
  }

  lemma {:induction false} DecEncNat(n: nat, rest: seq<byte>)
    ensures DecNat(EncNat(n) + rest) == Some((n, rest))
    decreases n
  {
    if n >= 128 {
      assert (EncNat(n) + rest)[1..] == EncNat(n / 128) + rest;
      DecEncNat(n / 128, rest);
    }
  }

  lemma {:induction false} DecNatCanonical(s: seq<byte>)
    requires DecNat(s).Some?
    ensures s == EncNat(DecNat(s).value.0) + DecNat(s).value.1
    decreases |s|
  {
    if s[0] >= 128 {
      DecNatCanonical(s[1..]);
      var (m, rest) := DecNat(s[1..]).value;
      var v := s[0] - 128 + 128 * m;
      assert v / 128 == m && v % 128 == s[0] - 128;
      assert s == [s[0]] + s[1..];
    } else {
      assert s == [s[0]] + s[1..];
    }
  }

  // ---- ints, zig-zag mapped onto naturals

  function ZigZag(i: int): nat {
    if i >= 0 then 2 * i else -2 * i - 1
  }

  function UnZigZag(m: nat): int {
    if m % 2 == 0 then m / 2 else -(m + 1) / 2
  }

  lemma ZigZagInverse(i: int, m: nat)
    ensures UnZigZag(ZigZag(i)) == i
    ensures ZigZag(UnZigZag(m)) == m
  {
  }

  // ---- characters, by code point

  predicate IsScalar(m: nat) {
    m < 0xD800 || (0xE000 <= m < 0x11_0000)
  }

  function EncChars(cs: string): seq<byte> {
    if cs == [] then [] else EncNat(cs[0] as int) + EncChars(cs[1..])
  }

  function DecChars(s: seq<byte>, count: nat): (r: Option<(string, seq<byte>)>)
    ensures r.Some? ==> |r.value.0| == count && |r.value.1| <= |s|
    decreases count
  {
    if count == 0 then Some(([], s))
    else match DecNat(s)
      case None => None
      case Some((m, rest)) =>
        if !IsScalar(m) then None
        else match DecChars(rest, count - 1)
          case None => None
          case Some((cs, rest')) => Some(([m as char] + cs, rest'))
  }

  function EncString(cs: string): seq<byte> {
    EncNat(|cs|) + EncChars(cs)
  }

  function DecString(s: seq<byte>): (r: Option<(string, seq<byte>)>)
    ensures r.Some? ==> |r.value.1| < |s|
  {
    match DecNat(s)
    case None => None
    case Some((n, rest)) => DecChars(rest, n)
  }

  lemma {:induction false} DecEncChars(cs: string, rest: seq<byte>)
    ensures DecChars(EncChars(cs) + rest, |cs|) == Some((cs, rest))
  {
    if cs != [] {
      var c := cs[0];
      var tail := EncChars(cs[1..]) + rest;
      assert EncChars(cs) + rest == EncNat(c as int) + tail;
      DecEncNat(c as int, tail);
      assert IsScalar(c as int) && (c as int) as char == c;
      DecEncChars(cs[1..], rest);
      assert DecChars(tail, |cs| - 1) == Some((cs[1..], rest));
      assert [c] + cs[1..] == cs;
    } else {
      assert EncChars(cs) + rest == rest;
    }
  }

  lemma {:induction false} DecCharsCanonical(s: seq<byte>, count: nat)
    requires DecChars(s, count).Some?
    ensures s == EncChars(DecChars(s, count).value.0) + DecChars(s, count).value.1
    decreases count
  {
    if count > 0 {
      var (m, rest) := DecNat(s).value;
      DecNatCanonical(s);
      DecCharsCanonical(rest, count - 1);
      var (cs, rest') := DecChars(rest, count - 1).value;
      var out := [m as char] + cs;
      assert out[1..] == cs;
    }
  }

  lemma DecEncString(cs: string, rest: seq<byte>)
    ensures DecString(EncString(cs) + rest) == Some((cs, rest))
  {
    assert EncString(cs) + rest == EncNat(|cs|) + (EncChars(cs) + rest);
    DecEncNat(|cs|, EncChars(cs) + rest);
    DecEncChars(cs, rest);
  }

  lemma DecStringCanonical(s: seq<byte>)
    requires DecString(s).Some?
    ensures s == EncString(DecString(s).value.0) + DecString(s).value.1
  {
    var (n, rest) := DecNat(s).value;
    DecNatCanonical(s);
    DecCharsCanonical(rest, n);
  }

  // ---- JSON values

  const TagNull: byte := 0
  const TagFalse: byte := 1
  const TagTrue: byte := 2
  const TagNum: byte := 3
  const TagStr: byte := 4
  const TagArr: byte := 5
  const TagObj: byte := 6

  /** The canonical byte form of a value (the model's `JSON.stringify`). */
  function Serialize(v: Json): seq<byte> {
    match v
    case JNull => [TagNull]
    case JBool(b) => [if b then TagTrue else TagFalse]
    case JNum(n) => [TagNum] + EncNat(ZigZag(n))
    case JStr(s) => [TagStr] + EncString(s)
    case JArr(items) => [TagArr] + EncNat(|items|) + SerializeItems(items)
    case JObj(ms) => [TagObj] + EncNat(|ms|) + SerializeMembers(ms)
  }

  function SerializeItems(items: seq<Json>): seq<byte> {
    if items == [] then [] else Serialize(items[0]) + SerializeItems(items[1..])
  }

  function SerializeMembers(ms: seq<Member>): seq<byte> {
    if ms == [] then []
    else
      var m := ms[0];
      assert m.value < m;
      EncString(m.key) + Serialize(m.value) + SerializeMembers(ms[1..])
  }

  /** Reads one value off the front of `s`, returning what is left. */
  function ParseValue(s: seq<byte>): (r: Option<(Json, seq<byte>)>)
    ensures r.Some? ==> |r.value.1| < |s|
    decreases |s|, 0, 0
  {
    if s == [] then None
    else
      var t := s[1..];
      if s[0] == TagNull then Some((JNull, t))
      else if s[0] == TagFalse then Some((JBool(false), t))
      else if s[0] == TagTrue then Some((JBool(true), t))
      else if s[0] == TagNum then ParseNum(t)
      else if s[0] == TagStr then ParseStr(t)
      else if s[0] == TagArr then ParseArr(t)
      else if s[0] == TagObj then ParseObj(t)
      else None
  }

  /** The rest of a number after its tag. */
  function ParseNum(t: seq<byte>): (r: Option<(Json, seq<byte>)>)
    ensures r.Some? ==> |r.value.1| < |t|
  {
    match DecNat(t)
    case None => None
    case Some((m, rest)) => Some((JNum(UnZigZag(m)), rest))
  }

  /** The rest of a string after its tag. */
  function ParseStr(t: seq<byte>): (r: Option<(Json, seq<byte>)>)
    ensures r.Some? ==> |r.value.1| < |t|
  {
    match DecString(t)
    case None => None
    case Some((cs, rest)) => Some((JStr(cs), rest))
  }

  /** The rest of an array after its tag: the item count, then the items. */
  function ParseArr(t: seq<byte>): (r: Option<(Json, seq<byte>)>)
    ensures r.Some? ==> |r.value.1| < |t|
    decreases |t|, 2, 0
  {
    match DecNat(t)
    case None => None
    case Some((n, rest)) =>
      match ParseItems(rest, n)
      case None => None
      case Some((items, rest')) => Some((JArr(items), rest'))
  }

  /** The rest of an object after its tag: the member count, then the members. */
  function ParseObj(t: seq<byte>): (r: Option<(Json, seq<byte>)>)
    ensures r.Some? ==> |r.value.1| < |t|
    decreases |t|, 2, 0
  {
    match DecNat(t)
    case None => None
    case Some((n, rest)) =>
      match ParseMembers(rest, n)
      case None => None
      case Some((ms, rest')) => Some((JObj(ms), rest'))
  }

  function ParseItems(s: seq<byte>, count: nat): (r: Option<(seq<Json>, seq<byte>)>)
    ensures r.Some? ==> |r.value.0| == count && |r.value.1| <= |s|
    decreases |s|, 1, count
  {
    if count == 0 then Some(([], s))
    else match ParseValue(s)
      case None => None
      case Some((v, rest)) =>
        match ParseItems(rest, count - 1)
        case None => None
        case Some((vs, rest')) => Some(([v] + vs, rest'))
  }

  function ParseMembers(s: seq<byte>, count: nat): (r: Option<(seq<Member>, seq<byte>)>)
    ensures r.Some? ==> |r.value.0| == count && |r.value.1| <= |s|
    decreases |s|, 1, count
  {
    if count == 0 then Some(([], s))
    else match DecString(s)
      case None => None
      case Some((key, rest)) =>
        match ParseValue(rest)
        case None => None
        case Some((v, rest')) =>
          match ParseMembers(rest', count - 1)
          case None => None
          case Some((ms, rest'')) => Some(([Member(key, v)] + ms, rest''))
  }

  /** The model's `JSON.parse`: a blob parses when one value covers all of it. */
  function Parse(b: seq<byte>): Option<Json> {
    match ParseValue(b)
    case None => None
    case Some((v, rest)) => if rest == [] then Some(v) else None
  }

  lemma Concat3(a: seq<byte>, b: seq<byte>, c: seq<byte>)
    ensures a + b + c == a + (b + c)
  {
  }

  lemma ConcatAssoc(a: seq<byte>, b: seq<byte>, c: seq<byte>, d: seq<byte>)
    ensures a + b + c + d == a + (b + (c + d))
  {
  }

  /** What follows a tag byte. */
  lemma Tagged(tag: byte, t: seq<byte>)
    ensures var s := [tag] + t; s != [] && s[0] == tag && s[1..] == t
  {
  }

  /** An array's count followed by bytes that parse as that many items. */
  lemma ArrBody(n: nat, body: seq<byte>, items: seq<Json>, rest: seq<byte>)
    requires ParseItems(body, n) == Some((items, rest))
    ensures ParseArr(EncNat(n) + body) == Some((JArr(items), rest))
  {
    DecEncNat(n, body);
  }

  /** An object's count followed by bytes that parse as that many members. */
  lemma ObjBody(n: nat, body: seq<byte>, ms: seq<Member>, rest: seq<byte>)
    requires ParseMembers(body, n) == Some((ms, rest))
    ensures ParseObj(EncNat(n) + body) == Some((JObj(ms), rest))
  {
    DecEncNat(n, body);
  }

  lemma {:induction false} ParseSerializeValue(v: Json, rest: seq<byte>)
    ensures ParseValue(Serialize(v) + rest) == Some((v, rest))
  {
    match v
    case JNull =>
    case JBool(b) =>
    case JNum(n) =>
      var e := EncNat(ZigZag(n));
      Concat3([TagNum], e, rest);
      Tagged(TagNum, e + rest);
      DecEncNat(ZigZag(n), rest);
      ZigZagInverse(n, 0);
    case JStr(cs) =>
      var e := EncString(cs);
      Concat3([TagStr], e, rest);
      Tagged(TagStr, e + rest);
      DecEncString(cs, rest);
    case JArr(items) =>
      var body := SerializeItems(items) + rest;
      ConcatAssoc([TagArr], EncNat(|items|), SerializeItems(items), rest);
      Tagged(TagArr, EncNat(|items|) + body);
      ParseSerializeItems(items, rest);
      ArrBody(|items|, body, items, rest);
    case JObj(ms) =>
      var body := SerializeMembers(ms) + rest;
      ConcatAssoc([TagObj], EncNat(|ms|), SerializeMembers(ms), rest);
      Tagged(TagObj, EncNat(|ms|) + body);
      ParseSerializeMembers(ms, rest);
      ObjBody(|ms|, body, ms, rest);
  }

  lemma {:induction false} ParseSerializeItems(items: seq<Json>, rest: seq<byte>)
    ensures ParseItems(SerializeItems(items) + rest, |items|) == Some((items, rest))
  {
    if items != [] {
      var tail := SerializeItems(items[1..]) + rest;
      Concat3(Serialize(items[0]), SerializeItems(items[1..]), rest);
      ParseSerializeValue(items[0], tail);
      ParseSerializeItems(items[1..], rest);
      assert [items[0]] + items[1..] == items;
    } else {
      assert SerializeItems(items) + rest == rest;
    }
  }

  lemma {:induction false} ParseSerializeMembers(ms: seq<Member>, rest: seq<byte>)
    ensures ParseMembers(SerializeMembers(ms) + rest, |ms|) == Some((ms, rest))
  {
    if ms != [] {
      var m := ms[0];
      assert m.value < m;
      var tail := SerializeMembers(ms[1..]) + rest;
      ConcatAssoc(EncString(m.key), Serialize(m.value), SerializeMembers(ms[1..]), rest);
      DecEncString(m.key, Serialize(m.value) + tail);
      ParseSerializeValue(m.value, tail);
      ParseSerializeMembers(ms[1..], rest);
      assert [Member(m.key, m.value)] + ms[1..] == ms;
    } else {
      assert SerializeMembers(ms) + rest == rest;
    }
  }

  /** Parsing inverts serialising. */
  lemma ParseSerialize(v: Json)
    ensures Parse(Serialize(v)) == Some(v)
  {
    ParseSerializeValue(v, []);
    assert Serialize(v) + [] == Serialize(v);
  }

  /** Two values serialise alike only when they are equal. */
  lemma SerializeInjective(a: Json, b: Json)
    requires Serialize(a) == Serialize(b)
    ensures a == b
  {
    ParseSerialize(a);
    ParseSerialize(b);
  }

  lemma {:induction false} ValueCanonical(s: seq<byte>)
    requires ParseValue(s).Some?
    ensures s == Serialize(ParseValue(s).value.0) + ParseValue(s).value.1
    decreases |s|, 0, 0
  {
    var t := s[1..];
    assert s == [s[0]] + t;
    if s[0] == TagNum {
      var (m, rest) := DecNat(t).value;
      DecNatCanonical(t);
      ZigZagInverse(0, m);
      Concat3([TagNum], EncNat(m), rest);
    } else if s[0] == TagStr {
      var (cs, rest) := DecString(t).value;
      DecStringCanonical(t);
      Concat3([TagStr], EncString(cs), rest);
    } else if s[0] == TagArr {
      ArrCanonical(t);
    } else if s[0] == TagObj {
      ObjCanonical(t);
    }
  }

  lemma {:induction false} ArrCanonical(t: seq<byte>)
    requires ParseArr(t).Some?
    ensures [TagArr] + t == Serialize(ParseArr(t).value.0) + ParseArr(t).value.1
    decreases |t|, 2, 0
  {
    var (n, r1) := DecNat(t).value;
    DecNatCanonical(t);
    ItemsCanonical(r1, n);
    var (items, r2) := ParseItems(r1, n).value;
    ConcatAssoc([TagArr], EncNat(n), SerializeItems(items), r2);
  }

  lemma {:induction false} ObjCanonical(t: seq<byte>)
    requires ParseObj(t).Some?
    ensures [TagObj] + t == Serialize(ParseObj(t).value.0) + ParseObj(t).value.1
    decreases |t|, 2, 0
  {
    var (n, r1) := DecNat(t).value;
    DecNatCanonical(t);
    MembersCanonical(r1, n);
    var (ms, r2) := ParseMembers(r1, n).value;
    ConcatAssoc([TagObj], EncNat(n), SerializeMembers(ms), r2);
  }

  lemma {:induction false} ItemsCanonical(s: seq<byte>, count: nat)
    requires ParseItems(s, count).Some?
    ensures s == SerializeItems(ParseItems(s, count).value.0) + ParseItems(s, count).value.1
    decreases |s|, 1, count
  {
    if count > 0 {
      var (v, r1) := ParseValue(s).value;
      ValueCanonical(s);
      ItemsCanonical(r1, count - 1);
      var (vs, r2) := ParseItems(r1, count - 1).value;
      var items := [v] + vs;
      assert items[0] == v && items[1..] == vs;
      Concat3(Serialize(v), SerializeItems(vs), r2);
    }
  }

  lemma {:induction false} MembersCanonical(s: seq<byte>, count: nat)
    requires ParseMembers(s, count).Some?
    ensures s == SerializeMembers(ParseMembers(s, count).value.0) + ParseMembers(s, count).value.1
    decreases |s|, 1, count
  {
    if count > 0 {
      var (key, r1) := DecString(s).value;
      DecStringCanonical(s);
      var (v, r2) := ParseValue(r1).value;
      ValueCanonical(r1);
      MembersCanonical(r2, count - 1);
      var (ms, r3) := ParseMembers(r2, count - 1).value;
      var all := [Member(key, v)] + ms;
      assert all[0] == Member(key, v) && all[1..] == ms;
      ConcatAssoc(EncString(key), Serialize(v), SerializeMembers(ms), r3);
    }
  }

  /** The parser accepts only the serialiser's own output: re-serialising what
      it read gives back the very bytes. */
  lemma SerializeParse(b: seq<byte>)
    requires Parse(b).Some?
    ensures Serialize(Parse(b).value) == b
  {
    ValueCanonical(b);
  }

  /** A blob cut short is not a document: a proper prefix of a serialisation does not parse. */
  lemma TruncatedDoesNotParse(v: Json, k: nat)
    requires k < |Serialize(v)|
    ensures Parse(Serialize(v)[..k]) == None
  {
    var full := Serialize(v);
    var p := full[..k];
    assert full + [] == full;
    ParseSerializeValue(v, []);
    if Parse(p).Some? {
      var w := Parse(p).value;
      SerializeParse(p);
      assert full == Serialize(w) + full[k..];
      ParseSerializeValue(w, full[k..]);
      assert false;
    }
  }

  // ---- gzip: a two-byte magic header in front of the payload

  const GzipMagic: seq<byte> := [0x1f, 0x8b]

  function Compress(b: seq<byte>): (r: seq<byte>)
    ensures |r| == |b| + 2
  {
    GzipMagic + b
  }

  function Decompress(b: seq<byte>): Option<seq<byte>> {
    if |b| >= 2 && b[..2] == GzipMagic then Some(b[2..]) else None
  }

  /** gunzip inverts gzip. */
  lemma DecompressCompress(b: seq<byte>)
    ensures Decompress(Compress(b)) == Some(b)
  {
    assert Compress(b)[..2] == GzipMagic;
  }

  /** A gzip stream is never a plain document: the magic byte is no value tag. */
  lemma CompressedIsNotPlain(b: seq<byte>)
    ensures Parse(Compress(b)) == None
  {
    assert Compress(b)[0] == 0x1f;
  }
}
