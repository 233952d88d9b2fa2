/** The catalogue: a schema written to a page as nested, length-prefixed data, and read back. */
module SchemaSerializer {

  type Byte = x: int | 0 <= x < 256
  type Unsigned = x: int | 0 <= x < 0x1_0000_0000

  const SIZE_T: nat := 8
  const UNSIGNED: nat := 4
  const SIZE_LIMIT: nat := 0x1_0000_0000_0000_0000

  type Name = seq<Byte>

  datatype Tag = Integer | Char

  datatype Attribute = Attribute(name: Name, tag: Tag, len: Unsigned, notNull: bool)

  datatype Relation = Relation(name: Name, attributes: seq<Attribute>, primaryKey: seq<Unsigned>)

  datatype Schema = Schema(relations: seq<Relation>)

  // ----- machine words, low byte first

  function Bytes(n: nat, width: nat): (s: seq<Byte>)
    ensures |s| == width
  {
    if width == 0 then [] else [n % 256] + Bytes(n / 256, width - 1)
  }

  function Word(s: seq<Byte>): nat {
    if s == [] then 0 else s[0] + 256 * Word(s[1..])
  }

  function Pow256(k: nat): nat {
    if k == 0 then 1 else 256 * Pow256(k - 1)
  }

  lemma {:induction false} WordOfBytes(n: nat, width: nat)
    requires n < Pow256(width)
    ensures Word(Bytes(n, width)) == n
  {
    if width > 0 {
      WordOfBytes(n / 256, width - 1);
      assert Bytes(n, width)[1..] == Bytes(n / 256, width - 1);
    }
  }

  lemma Widths()
    ensures Pow256(SIZE_T) == SIZE_LIMIT && Pow256(UNSIGNED) == 0x1_0000_0000
  {
    assert Pow256(2) == 0x1_0000;
    assert Pow256(4) == 0x1_0000_0000;
    assert Pow256(6) == 0x1_0000_0000_0000;
  }

  lemma ReadBack(n: nat, width: nat, after: seq<Byte>)
    requires n < Pow256(width)
    ensures var buffer := Bytes(n, width) + after;
            width <= |buffer| && Word(buffer[..width]) == n && buffer[width..] == after
  {
    WordOfBytes(n, width);
    assert (Bytes(n, width) + after)[..width] == Bytes(n, width);
  }

  // ----- C strings

  /** A C string ends before its first NUL. */
  function Cut(name: Name): Name {
    if name == [] || name[0] == 0 then [] else [name[0]] + Cut(name[1..])
  }

  lemma {:induction false} CutIsPrefix(name: Name)
    ensures Cut(name) <= name && 0 !in Cut(name)
    ensures |Cut(name)| < |name| ==> name[|Cut(name)|] == 0
    ensures 0 !in name <==> Cut(name) == name
  {
    if name != [] {
      CutIsPrefix(name[1..]);
      assert name == [name[0]] + name[1..];
    }
  }

  lemma {:induction false} CutStops(prefix: Name, after: Name)
    requires 0 !in prefix
    ensures Cut(prefix + [0] + after) == prefix && Cut(prefix) == prefix
  {
    var s := prefix + [0] + after;
    if prefix != [] {
      CutStops(prefix[1..], after);
      assert s[0] == prefix[0] && s[1..] == prefix[1..] + [0] + after;
    }
  }

  // ----- the layout

  function Flag(b: bool): Byte {
    if b then 't' as int else 'f' as int
  }

  function LayoutName(name: Name): seq<Byte> {
    Bytes(|name|, SIZE_T) + name
  }

  function LayoutAttribute(a: Attribute): seq<Byte> {
    LayoutName(a.name) + ([Flag(a.tag == Integer)] + (Bytes(a.len, UNSIGNED) + [Flag(a.notNull)]))
  }

  function LayoutAttributes(attributes: seq<Attribute>): seq<Byte> {
    if attributes == [] then [] else LayoutAttribute(attributes[0]) + LayoutAttributes(attributes[1..])
  }

  function LayoutKeys(keys: seq<Unsigned>): seq<Byte> {
    if keys == [] then [] else Bytes(keys[0], UNSIGNED) + LayoutKeys(keys[1..])
  }

  function LayoutRelation(r: Relation): seq<Byte> {
    LayoutName(r.name)
    + (Bytes(|r.attributes|, SIZE_T) + (LayoutAttributes(r.attributes)
    + (Bytes(|r.primaryKey|, SIZE_T) + LayoutKeys(r.primaryKey))))
  }

  function LayoutRelations(relations: seq<Relation>): seq<Byte> {
    if relations == [] then [] else LayoutRelation(relations[0]) + LayoutRelations(relations[1..])
  }

  function Layout(schema: Schema): seq<Byte> {
    Bytes(|schema.relations|, SIZE_T) + LayoutRelations(schema.relations)
  }

  // ----- where the layout puts every byte

  function Little(a: int, b: int, c: int, d: int): int {
    a + 0x100 * b + 0x1_0000 * c + 0x100_0000 * d
  }

  /** A 32-bit number, and a 64-bit number, low byte first. */
  ghost predicate UnsignedAt(s: seq<Byte>, at: nat, n: nat) {
    at + 4 <= |s| && n == Little(s[at], s[at + 1], s[at + 2], s[at + 3])
  }

  ghost predicate SizeAt(s: seq<Byte>, at: nat, n: nat) {
    && at + 8 <= |s|
    && n == Little(s[at], s[at + 1], s[at + 2], s[at + 3])
            + 0x1_0000_0000 * Little(s[at + 4], s[at + 5], s[at + 6], s[at + 7])
  }

  ghost predicate NameAt(s: seq<Byte>, at: nat, name: Name) {
    SizeAt(s, at, |name|) && at + 8 + |name| <= |s| && s[at + 8..at + 8 + |name|] == name
  }

  /** The name, 't' for an integer and 'f' for characters, the length, and 't' or 'f' for not null. */
  ghost predicate AttributeAt(s: seq<Byte>, at: nat, a: Attribute) {
    var after := at + 8 + |a.name|;
    && NameAt(s, at, a.name) && after + 6 <= |s|
    && s[after] == (if a.tag.Integer? then 0x74 else 0x66) && UnsignedAt(s, after + 1, a.len)
    && s[after + 5] == if a.notNull then 0x74 else 0x66
  }

  ghost function AttributesEnd(at: nat, attributes: seq<Attribute>): nat
    decreases |attributes|
  {
    if attributes == [] then at else AttributesEnd(at + 14 + |attributes[0].name|, attributes[1..])
  }

  ghost predicate AttributesAt(s: seq<Byte>, at: nat, attributes: seq<Attribute>)
    decreases |attributes|
  {
    attributes == [] ||
    (AttributeAt(s, at, attributes[0]) && AttributesAt(s, at + 14 + |attributes[0].name|, attributes[1..]))
  }

  /** The name, the attributes and the keys, each behind their number. */
  ghost predicate RelationAt(s: seq<Byte>, at: nat, r: Relation) {
    var after := at + 8 + |r.name|;
    var keys := AttributesEnd(after + 8, r.attributes);
    && NameAt(s, at, r.name)
    && SizeAt(s, after, |r.attributes|) && AttributesAt(s, after + 8, r.attributes)
    && SizeAt(s, keys, |r.primaryKey|)
    && forall k :: 0 <= k < |r.primaryKey| ==> UnsignedAt(s, keys + 8 + 4 * k, r.primaryKey[k])
  }

  ghost function RelationEnd(at: nat, r: Relation): nat {
    AttributesEnd(at + 16 + |r.name|, r.attributes) + 8 + 4 * |r.primaryKey|
  }

  ghost predicate RelationsAt(s: seq<Byte>, at: nat, relations: seq<Relation>)
    decreases |relations|
  {
    relations == [] ||
      (RelationAt(s, at, relations[0]) && RelationsAt(s, RelationEnd(at, relations[0]), relations[1..]))
  }

  ghost predicate SchemaAt(s: seq<Byte>, at: nat, schema: Schema) {
    SizeAt(s, at, |schema.relations|) && RelationsAt(s, at + 8, schema.relations)
  }

  ghost predicate Lies(s: seq<Byte>, at: nat, part: seq<Byte>) {
    at + |part| <= |s| && s[at..at + |part|] == part
  }

  lemma LiesSplit(s: seq<Byte>, at: nat, a: seq<Byte>, b: seq<Byte>)
    requires Lies(s, at, a + b)
    ensures Lies(s, at, a) && Lies(s, at + |a|, b)
  {
    var both := s[at..at + |a + b|];
    assert both == a + b && |a + b| == |a| + |b|;
    assert s[at..at + |a|] == both[..|a|] == a;
    assert s[at + |a|..at + |a| + |b|] == both[|a|..] == b;
  }

  lemma LiesAt(s: seq<Byte>, at: nat, part: seq<Byte>)
    requires Lies(s, at, part)
    ensures at + |part| <= |s| && forall i :: 0 <= i < |part| ==> part[i] == s[at + i]
  {
    forall i | 0 <= i < |part| ensures part[i] == s[at + i] {
      assert s[at..at + |part|][i] == s[at + i];
    }
  }

  lemma UnsignedLies(s: seq<Byte>, at: nat, n: nat)
    requires Lies(s, at, Bytes(n, UNSIGNED)) && n < 0x1_0000_0000
    ensures UnsignedAt(s, at, n)
  {
    Widths();
    WordOfBytes(n, UNSIGNED);
    FourBytes(Bytes(n, UNSIGNED));
    hide Word, Bytes, Pow256, Little;
    LiesAt(s, at, Bytes(n, UNSIGNED));
  }

  lemma FourBytes(s: seq<Byte>)
    requires |s| == 4
    ensures Word(s) == Little(s[0], s[1], s[2], s[3])
  {
    assert s == [s[0], s[1], s[2], s[3]];
    FourMore(s[0], s[1], s[2], s[3], []);
    hide Word;
    assert s + [] == s;
  }

  lemma FourMore(a: Byte, b: Byte, c: Byte, d: Byte, rest: seq<Byte>)
    ensures Word([a, b, c, d] + rest) == Little(a, b, c, d) + 0x1_0000_0000 * Word(rest)
    ensures Word([]) == 0
  {
    OneMore(d, rest);
    OneMore(c, [d] + rest);
    OneMore(b, [c] + ([d] + rest));
    OneMore(a, [b] + ([c] + ([d] + rest)));
    assert [a, b, c, d] + rest == [a] + ([b] + ([c] + ([d] + rest)));
    hide Word;
  }

  lemma OneMore(a: Byte, rest: seq<Byte>)
    ensures Word([a] + rest) == a + 0x100 * Word(rest)
  {
    assert ([a] + rest)[1..] == rest;
  }

  lemma SizeLies(s: seq<Byte>, at: nat, n: nat)
    requires Lies(s, at, Bytes(n, SIZE_T)) && n < SIZE_LIMIT
    ensures SizeAt(s, at, n)
  {
    Widths();
    WordOfBytes(n, SIZE_T);
    EightBytes(Bytes(n, SIZE_T));
    hide Word, Bytes, Pow256, Little;
    LiesAt(s, at, Bytes(n, SIZE_T));
  }

  lemma EightBytes(s: seq<Byte>)
    requires |s| == 8
    ensures Word(s) == Little(s[0], s[1], s[2], s[3]) + 0x1_0000_0000 * Little(s[4], s[5], s[6], s[7])
  {
    FourBytes(s[4..]);
    FourMore(s[0], s[1], s[2], s[3], s[4..]);
    assert s == [s[0], s[1], s[2], s[3]] + s[4..];
    hide Word, Little;
  }

  lemma NameLies(s: seq<Byte>, at: nat, name: Name)
    requires Lies(s, at, LayoutName(name)) && |name| < SIZE_LIMIT
    ensures NameAt(s, at, name)
  {
    LiesSplit(s, at, Bytes(|name|, SIZE_T), name);
    hide Bytes;
    SizeLies(s, at, |name|);
  }

  lemma AttributeLies(s: seq<Byte>, at: nat, a: Attribute)
    requires Lies(s, at, LayoutAttribute(a)) && |a.name| < SIZE_LIMIT
    ensures AttributeAt(s, at, a) && |LayoutAttribute(a)| == 14 + |a.name|
  {
    hide NameAt, UnsignedAt, Bytes;
    var tail := Bytes(a.len, UNSIGNED) + [Flag(a.notNull)];
    var after := at + 8 + |a.name|;
    LiesSplit(s, at, LayoutName(a.name), [Flag(a.tag == Integer)] + tail);
    LiesSplit(s, after, [Flag(a.tag == Integer)], tail);
    LiesSplit(s, after + 1, Bytes(a.len, UNSIGNED), [Flag(a.notNull)]);
    NameLies(s, at, a.name);
    UnsignedLies(s, after + 1, a.len);
    assert s[after..after + 1][0] == s[after] && s[after + 5..after + 6][0] == s[after + 5];
  }

  lemma AttributesSplit(s: seq<Byte>, at: nat, attributes: seq<Attribute>)
    requires Lies(s, at, LayoutAttributes(attributes))
    ensures attributes == [] ==> LayoutAttributes(attributes) == []
    ensures attributes != [] ==>
      var first, rest := LayoutAttribute(attributes[0]), LayoutAttributes(attributes[1..]);
      && Lies(s, at, first) && Lies(s, at + |first|, rest) && |LayoutAttributes(attributes)| == |first| + |rest|
      && |attributes[0].name| <= |first|
  {
    hide Lies;
    if attributes != [] {
      LiesSplit(s, at, LayoutAttribute(attributes[0]), LayoutAttributes(attributes[1..]));
    }
  }

  lemma {:induction false} AttributesLie(s: seq<Byte>, at: nat, attributes: seq<Attribute>)
    requires Lies(s, at, LayoutAttributes(attributes)) && |LayoutAttributes(attributes)| < SIZE_LIMIT
    ensures AttributesAt(s, at, attributes) && AttributesEnd(at, attributes) == at + |LayoutAttributes(attributes)|
    decreases |attributes|
  {
    hide Lies, AttributeAt, LayoutAttribute, LayoutAttributes;
    AttributesSplit(s, at, attributes);
    if attributes != [] {
      AttributeLies(s, at, attributes[0]);
      AttributesLie(s, at + 14 + |attributes[0].name|, attributes[1..]);
    }
  }

  lemma {:induction false} KeysLie(s: seq<Byte>, at: nat, keys: seq<Unsigned>)
    requires Lies(s, at, LayoutKeys(keys))
    ensures forall k :: 0 <= k < |keys| ==> UnsignedAt(s, at + 4 * k, keys[k])
    decreases |keys|
  {
    if keys != [] {
      LiesSplit(s, at, Bytes(keys[0], UNSIGNED), LayoutKeys(keys[1..]));
      hide Lies, UnsignedAt, Bytes, LayoutKeys;
      UnsignedLies(s, at, keys[0]);
      KeysLie(s, at + 4, keys[1..]);
      forall k | 0 <= k < |keys| ensures UnsignedAt(s, at + 4 * k, keys[k]) {
        if k > 0 {
          assert UnsignedAt(s, at + 4 + 4 * (k - 1), keys[1..][k - 1]);
        }
      }
    }
  }

  lemma RelationLies(s: seq<Byte>, at: nat, r: Relation)
    requires Lies(s, at, LayoutRelation(r)) && |LayoutRelation(r)| < SIZE_LIMIT
    ensures RelationAt(s, at, r) && RelationEnd(at, r) == at + |LayoutRelation(r)|
  {
    AttributeCount(r.attributes);
    KeysSize(r.primaryKey);
    hide NameAt, SizeAt, UnsignedAt, AttributesAt, AttributesEnd, Bytes, LayoutAttributes, LayoutKeys, Lies;
    var after := at + 8 + |r.name|;
    var keys := Bytes(|r.primaryKey|, SIZE_T) + LayoutKeys(r.primaryKey);
    var attributes := LayoutAttributes(r.attributes);
    LiesSplit(s, at, LayoutName(r.name), Bytes(|r.attributes|, SIZE_T) + (attributes + keys));
    LiesSplit(s, after, Bytes(|r.attributes|, SIZE_T), attributes + keys);
    LiesSplit(s, after + 8, attributes, keys);
    LiesSplit(s, after + 8 + |attributes|, Bytes(|r.primaryKey|, SIZE_T), LayoutKeys(r.primaryKey));
    NameLies(s, at, r.name);
    SizeLies(s, after, |r.attributes|);
    AttributesLie(s, after + 8, r.attributes);
    SizeLies(s, after + 8 + |attributes|, |r.primaryKey|);
    KeysLie(s, after + 16 + |attributes|, r.primaryKey);
    EndsMove(at, r);
  }

  lemma EndsMove(at: nat, r: Relation)
    ensures AttributesEnd(at + 16 + |r.name|, r.attributes) == AttributesEnd((at + 8 + |r.name|) + 8, r.attributes)
  {
  }

  lemma RelationsSplit(s: seq<Byte>, at: nat, relations: seq<Relation>)
    requires Lies(s, at, LayoutRelations(relations))
    ensures relations != [] ==>
      var first, rest := LayoutRelation(relations[0]), LayoutRelations(relations[1..]);
      && Lies(s, at, first) && Lies(s, at + |first|, rest) && |LayoutRelations(relations)| == |first| + |rest|
  {
    hide LayoutRelation, Lies;
    if relations != [] {
      LiesSplit(s, at, LayoutRelation(relations[0]), LayoutRelations(relations[1..]));
    }
  }

  lemma {:induction false} RelationsLie(s: seq<Byte>, at: nat, relations: seq<Relation>)
    requires Lies(s, at, LayoutRelations(relations)) && |LayoutRelations(relations)| < SIZE_LIMIT
    ensures RelationsAt(s, at, relations)
    decreases |relations|
  {
    hide Lies, RelationAt, RelationEnd, LayoutRelation, LayoutRelations;
    RelationsSplit(s, at, relations);
    if relations != [] {
      RelationLies(s, at, relations[0]);
      RelationsLie(s, RelationEnd(at, relations[0]), relations[1..]);
    }
  }

  /** Every byte of the layout is where the format puts it. */
  lemma SchemaLies(s: seq<Byte>, at: nat, schema: Schema)
    requires Lies(s, at, Layout(schema)) && |Layout(schema)| < SIZE_LIMIT
    ensures SchemaAt(s, at, schema)
  {
    RelationCount(schema.relations);
    LiesSplit(s, at, Bytes(|schema.relations|, SIZE_T), LayoutRelations(schema.relations));
    hide Bytes, LayoutRelations, SizeAt, RelationsAt;
    SizeLies(s, at, |schema.relations|);
    RelationsLie(s, at + 8, schema.relations);
  }

  // ----- size_of_schema counts what the layout takes

  lemma {:induction false} KeysSize(keys: seq<Unsigned>)
    ensures |LayoutKeys(keys)| == UNSIGNED * |keys|
  {
    if keys != [] {
      KeysSize(keys[1..]);
    }
  }

  lemma {:induction false} AttributesAppend(attrs: seq<Attribute>, a: Attribute)
    ensures LayoutAttributes(attrs + [a]) == LayoutAttributes(attrs) + LayoutAttribute(a)
  {
    hide LayoutAttribute;
    if attrs == [] {
      assert attrs + [a] == [a];
    } else {
      AttributesAppend(attrs[1..], a);
      assert (attrs + [a])[1..] == attrs[1..] + [a];
    }
  }

  lemma {:induction false} RelationsAppend(rs: seq<Relation>, r: Relation)
    ensures LayoutRelations(rs + [r]) == LayoutRelations(rs) + LayoutRelation(r)
  {
    hide LayoutRelation;
    if rs == [] {
      assert rs + [r] == [r];
    } else {
      RelationsAppend(rs[1..], r);
      assert (rs + [r])[1..] == rs[1..] + [r];
    }
  }

  lemma {:induction false} KeysAppend(ks: seq<Unsigned>, k: Unsigned)
    ensures LayoutKeys(ks + [k]) == LayoutKeys(ks) + Bytes(k, UNSIGNED)
  {
    if ks == [] {
      assert ks + [k] == [k];
    } else {
      KeysAppend(ks[1..], k);
      assert (ks + [k])[1..] == ks[1..] + [k];
    }
  }

  lemma NoLayouts()
    ensures LayoutRelations([]) == LayoutAttributes([]) == []
  {
  }

  method SizeOfSchema(schema: Schema) returns (bufferSize: nat)
    ensures bufferSize == |Layout(schema)|
  {
    hide LayoutRelations, LayoutAttributes, LayoutKeys;
    NoLayouts();
    bufferSize := SIZE_T;
    var r := 0;
    while r < |schema.relations|
      invariant 0 <= r <= |schema.relations|
      invariant bufferSize == SIZE_T + |LayoutRelations(schema.relations[..r])|
    {
      var relation := schema.relations[r];
      ghost var before := bufferSize;
      bufferSize := bufferSize + SIZE_T + |relation.name| + SIZE_T;
      var a := 0;
      while a < |relation.attributes|
        invariant 0 <= a <= |relation.attributes|
        invariant bufferSize ==
                  before + SIZE_T + |relation.name| + SIZE_T + |LayoutAttributes(relation.attributes[..a])|
      {
        var attribute := relation.attributes[a];
        bufferSize := bufferSize + SIZE_T + |attribute.name| + 1 + UNSIGNED + 1;
        AttributesAppend(relation.attributes[..a], attribute);
        assert relation.attributes[..a + 1] == relation.attributes[..a] + [attribute];
        a := a + 1;
      }
      assert relation.attributes[..a] == relation.attributes;
      bufferSize := bufferSize + SIZE_T;
      bufferSize := bufferSize + UNSIGNED * |relation.primaryKey|;
      KeysSize(relation.primaryKey);
      RelationsAppend(schema.relations[..r], relation);
      assert schema.relations[..r + 1] == schema.relations[..r] + [relation];
      r := r + 1;
    }
    assert schema.relations[..r] == schema.relations;
  }

  // ----- reading

  function CutAttribute(a: Attribute): Attribute {
    a.(name := Cut(a.name))
  }

  function CutAttributes(attributes: seq<Attribute>): seq<Attribute> {
    if attributes == [] then [] else [CutAttribute(attributes[0])] + CutAttributes(attributes[1..])
  }

  function CutRelation(r: Relation): Relation {
    r.(name := Cut(r.name), attributes := CutAttributes(r.attributes))
  }

  function CutRelations(relations: seq<Relation>): seq<Relation> {
    if relations == [] then [] else [CutRelation(relations[0])] + CutRelations(relations[1..])
  }

  /** A schema with every name cut at its first NUL. */
  function CutSchema(schema: Schema): Schema {
    Schema(CutRelations(schema.relations))
  }

  method ReadWord(buffer: seq<Byte>, width: nat, ghost n: nat, ghost after: seq<Byte>)
    returns (word: nat, rest: seq<Byte>)
    requires buffer == Bytes(n, width) + after && n < Pow256(width)
    ensures word == n && rest == after
  {
    ReadBack(n, width, after);
    word, rest := Word(buffer[..width]), buffer[width..];
  }

  method ReadName(buffer: seq<Byte>, ghost stored: Name, ghost after: seq<Byte>) returns (name: Name, rest: seq<Byte>)
    requires buffer == LayoutName(stored) + after && |stored| < SIZE_LIMIT
    ensures name == Cut(stored) && rest == after
  {
    Widths();
    hide Bytes, Cut, Pow256;
    assert buffer == Bytes(|stored|, SIZE_T) + (stored + after);
    var length;
    length, rest := ReadWord(buffer, SIZE_T, |stored|, stored + after);
    name, rest := Cut(rest[..length]), rest[length..];
  }

  method ReadFlag(buffer: seq<Byte>, ghost flag: bool, ghost after: seq<Byte>) returns (b: bool, rest: seq<Byte>)
    requires buffer == [Flag(flag)] + after
    ensures b == flag && rest == after
  {
    b, rest := buffer[0] == 't' as int, buffer[1..];
  }

  method ReadAttribute(buffer: seq<Byte>, ghost stored: Attribute, ghost after: seq<Byte>)
    returns (attribute: Attribute, rest: seq<Byte>)
    requires buffer == LayoutAttribute(stored) + after && |LayoutAttribute(stored)| < SIZE_LIMIT
    ensures attribute == CutAttribute(stored) && rest == after
  {
    Widths();
    ghost var last := [Flag(stored.notNull)] + after;
    ghost var len := Bytes(stored.len, UNSIGNED) + last;
    ghost var kind := [Flag(stored.tag == Integer)] + len;
    assert buffer == LayoutName(stored.name) + kind;
    var name, integer, length, notNull;
    name, rest := ReadName(buffer, stored.name, kind);
    integer, rest := ReadFlag(rest, stored.tag == Integer, len);
    length, rest := ReadWord(rest, UNSIGNED, stored.len, last);
    notNull, rest := ReadFlag(rest, stored.notNull, after);
    attribute := Attribute(name, if integer then Integer else Char, length, notNull);
  }

  method ReadAttributes(buffer: seq<Byte>, count: nat, ghost stored: seq<Attribute>, ghost after: seq<Byte>)
    returns (attributes: seq<Attribute>, rest: seq<Byte>)
    requires buffer == LayoutAttributes(stored) + after && |LayoutAttributes(stored)| < SIZE_LIMIT && count == |stored|
    ensures attributes == CutAttributes(stored) && rest == after
  {
    hide LayoutAttribute, CutAttribute;
    attributes, rest := [], buffer;
    var a := 0;
    while a < count
      invariant 0 <= a <= count
      invariant rest == LayoutAttributes(stored[a..]) + after && |LayoutAttributes(stored[a..])| < SIZE_LIMIT
      invariant attributes + CutAttributes(stored[a..]) == CutAttributes(stored)
    {
      assert stored[a..][1..] == stored[a + 1..];
      ghost var others := LayoutAttributes(stored[a + 1..]) + after;
      assert rest == LayoutAttribute(stored[a]) + others;
      var attribute;
      attribute, rest := ReadAttribute(rest, stored[a], others);
      attributes := attributes + [attribute];
      a := a + 1;
    }
  }

  method ReadKeys(buffer: seq<Byte>, count: nat, ghost stored: seq<Unsigned>, ghost after: seq<Byte>)
    returns (keys: seq<Unsigned>, rest: seq<Byte>)
    requires buffer == LayoutKeys(stored) + after && count == |stored|
    ensures keys == stored && rest == after
  {
    Widths();
    keys, rest := [], buffer;
    var k := 0;
    while k < count
      invariant 0 <= k <= count
      invariant rest == LayoutKeys(stored[k..]) + after
      invariant keys == stored[..k]
    {
      assert stored[k..][1..] == stored[k + 1..];
      ghost var others := LayoutKeys(stored[k + 1..]) + after;
      assert rest == Bytes(stored[k], UNSIGNED) + others;
      var primaryKey;
      primaryKey, rest := ReadWord(rest, UNSIGNED, stored[k], others);
      keys := keys + [primaryKey];
      k := k + 1;
    }
  }

  lemma {:induction false} AttributeCount(attributes: seq<Attribute>)
    ensures |attributes| <= |LayoutAttributes(attributes)|
  {
    if attributes != [] {
      AttributeCount(attributes[1..]);
    }
  }

  lemma {:induction false} RelationCount(relations: seq<Relation>)
    ensures |relations| <= |LayoutRelations(relations)|
  {
    if relations != [] {
      RelationCount(relations[1..]);
    }
  }

  lemma RelationParts(r: Relation, after: seq<Byte>)
    ensures LayoutRelation(r) + after
      == LayoutName(r.name) + (Bytes(|r.attributes|, SIZE_T) + (LayoutAttributes(r.attributes)
         + (Bytes(|r.primaryKey|, SIZE_T) + (LayoutKeys(r.primaryKey) + after))))
    ensures |r.name| <= |LayoutRelation(r)| && |r.attributes| <= |LayoutAttributes(r.attributes)| <= |LayoutRelation(r)|
    ensures |r.primaryKey| <= |LayoutRelation(r)|
  {
    AttributeCount(r.attributes);
    KeysSize(r.primaryKey);
    hide LayoutAttributes, LayoutKeys;
  }

  method ReadRelation(buffer: seq<Byte>, ghost stored: Relation, ghost after: seq<Byte>)
    returns (relation: Relation, rest: seq<Byte>)
    requires buffer == LayoutRelation(stored) + after && |LayoutRelation(stored)| < SIZE_LIMIT
    ensures relation == CutRelation(stored) && rest == after
  {
    hide LayoutAttributes, LayoutKeys, LayoutName, LayoutRelation, Bytes, Pow256, CutAttributes;
    Widths();
    RelationParts(stored, after);
    ghost var keys := LayoutKeys(stored.primaryKey) + after;
    ghost var keyCount := Bytes(|stored.primaryKey|, SIZE_T) + keys;
    ghost var attrs := LayoutAttributes(stored.attributes) + keyCount;
    ghost var attrCount := Bytes(|stored.attributes|, SIZE_T) + attrs;
    var name, numberOfAttributes, attributes, numberOfPrimaryKeys, primaryKey;
    name, rest := ReadName(buffer, stored.name, attrCount);
    numberOfAttributes, rest := ReadWord(rest, SIZE_T, |stored.attributes|, attrs);
    attributes, rest := ReadAttributes(rest, numberOfAttributes, stored.attributes, keyCount);
    numberOfPrimaryKeys, rest := ReadWord(rest, SIZE_T, |stored.primaryKey|, keys);
    primaryKey, rest := ReadKeys(rest, numberOfPrimaryKeys, stored.primaryKey, after);
    relation := Relation(name, attributes, primaryKey);
  }

  /** What is laid out at the start of the data comes back, whatever follows it, with each name cut at its first NUL. */
  method ReadSchema(data: seq<Byte>, ghost stored: Schema) returns (schema: Schema)
    requires |Layout(stored)| < SIZE_LIMIT && Bytes(|Layout(stored)|, SIZE_T) + Layout(stored) <= data
    ensures schema == CutSchema(stored)
  {
    Widths();
    RelationCount(stored.relations);
    ghost var after := data[SIZE_T + |Layout(stored)|..];
    assert data == Bytes(|Layout(stored)|, SIZE_T) + (Layout(stored) + after);
    ghost var all := LayoutRelations(stored.relations);
    assert Layout(stored) == Bytes(|stored.relations|, SIZE_T) + all;
    hide LayoutRelations, LayoutRelation, CutRelation, Layout;
    var sizeOfSchema, rest := ReadWord(data, SIZE_T, |Layout(stored)|, Layout(stored) + after);
    var buffer := rest[..sizeOfSchema];
    assert buffer == Layout(stored);
    var numberOfRelations;
    numberOfRelations, buffer := ReadWord(buffer, SIZE_T, |stored.relations|, all);
    var relations := ReadRelations(buffer, numberOfRelations, stored.relations);
    schema := Schema(relations);
  }

  method ReadRelations(start: seq<Byte>, count: nat, ghost stored: seq<Relation>) returns (relations: seq<Relation>)
    requires start == LayoutRelations(stored) && |start| < SIZE_LIMIT && count == |stored|
    ensures relations == CutRelations(stored)
  {
    hide LayoutRelation, CutRelation;
    relations := [];
    var buffer := start;
    var r := 0;
    while r < count
      invariant 0 <= r <= count
      invariant buffer == LayoutRelations(stored[r..]) && |buffer| < SIZE_LIMIT
      invariant relations + CutRelations(stored[r..]) == CutRelations(stored)
    {
      assert stored[r..][1..] == stored[r + 1..];
      var relation;
      relation, buffer := ReadRelation(buffer, stored[r], LayoutRelations(stored[r + 1..]));
      relations := relations + [relation];
      r := r + 1;
    }
  }

  // ----- writing

  method MemCpy(buffer: array<Byte>, at: nat, source: seq<Byte>)
    requires at + |source| <= buffer.Length
    modifies buffer
    ensures buffer[..] == old(buffer[..at]) + source + old(buffer[at + |source|..])
  {
    var i := 0;
    while i < |source|
      invariant 0 <= i <= |source|
      invariant buffer[..at] == old(buffer[..at]) && buffer[at..at + i] == source[..i]
      invariant buffer[at + i..] == old(buffer[at + i..])
    {
      buffer[at + i] := source[i];
      i := i + 1;
    }
    assert buffer[..] == buffer[..at] + buffer[at..at + i] + buffer[at + i..];
  }

  /** Appends bytes to the part of the buffer in use. */
  method Append(buffer: array<Byte>, used: nat, source: seq<Byte>) returns (used': nat)
    requires used + |source| <= buffer.Length
    modifies buffer
    ensures used' == used + |source| && buffer[..used'] == old(buffer[..used]) + source
  {
    MemCpy(buffer, used, source);
    used' := used + |source|;
    assert buffer[..used'] == buffer[..][..used'];
  }

  /** Copying a C string stops at its first NUL, so the space left for the rest of the name keeps whatever it held. */
  method AppendName(buffer: array<Byte>, used: nat, name: Name) returns (used': nat, ghost stored: Name)
    requires used + SIZE_T + |name| < buffer.Length
    modifies buffer
    ensures used' == used + SIZE_T + |name| && buffer[..used'] == old(buffer[..used]) + LayoutName(stored)
    ensures |stored| == |name| && Cut(stored) == Cut(name) && (0 !in name ==> stored == name)
  {
    CutIsPrefix(name);
    hide Cut, Bytes;
    var at := Append(buffer, used, Bytes(|name|, SIZE_T));
    label before:
    var cut := Cut(name);
    MemCpy(buffer, at, cut + [0]);
    used' := at + |name|;
    stored := buffer[at..used'];
    assert buffer[..used'] == buffer[..at] + stored;
    assert buffer[..at] == buffer[..][..at] == old@before(buffer[..at]);
    assert buffer[at..at + |cut| + 1] == buffer[..][at..at + |cut| + 1] == cut + [0];
    if |cut| < |name| {
      assert stored == stored[..|cut| + 1] + stored[|cut| + 1..];
      assert stored[..|cut| + 1] == cut + [0];
      CutStops(cut, stored[|cut| + 1..]);
    } else {
      assert stored == (cut + [0])[..|cut|] == name;
    }
  }

  /** What was stored differs from what was to be stored at most behind the first NUL of a name. */
  ghost predicate NameFor(stored: Name, name: Name) {
    |stored| == |name| && Cut(stored) == Cut(name) && (0 !in name ==> stored == name)
  }

  ghost predicate AttributeFor(stored: Attribute, a: Attribute) {
    NameFor(stored.name, a.name) && stored == a.(name := stored.name)
  }

  ghost predicate AttributesFor(stored: seq<Attribute>, attributes: seq<Attribute>) {
    |stored| == |attributes| && forall i :: 0 <= i < |stored| ==> AttributeFor(stored[i], attributes[i])
  }

  ghost predicate RelationFor(stored: Relation, r: Relation) {
    && NameFor(stored.name, r.name) && AttributesFor(stored.attributes, r.attributes)
    && stored == r.(name := stored.name, attributes := stored.attributes)
  }

  ghost predicate RelationsFor(stored: seq<Relation>, relations: seq<Relation>) {
    |stored| == |relations| && forall i :: 0 <= i < |stored| ==> RelationFor(stored[i], relations[i])
  }

  method WriteFlag(buffer: array<Byte>, used: nat, flag: bool) returns (used': nat)
    requires used < buffer.Length
    modifies buffer
    ensures used' == used + 1 && buffer[..used'] == old(buffer[..used]) + [Flag(flag)]
  {
    used' := Append(buffer, used, [if flag then 't' as int else 'f' as int]);
  }

  method WriteAttribute(buffer: array<Byte>, used: nat, a: Attribute) returns (used': nat, ghost stored: Attribute)
    requires used + |LayoutAttribute(a)| <= buffer.Length
    modifies buffer
    ensures used' == used + |LayoutAttribute(a)| && AttributeFor(stored, a)
    ensures buffer[..used'] == old(buffer[..used]) + LayoutAttribute(stored)
  {
    ghost var name;
    used', name := AppendName(buffer, used, a.name);
    stored := a.(name := name);
    used' := WriteFlag(buffer, used', a.tag == Integer);
    used' := Append(buffer, used', Bytes(a.len, UNSIGNED));
    used' := WriteFlag(buffer, used', a.notNull);
  }

  method WriteAttributes(buffer: array<Byte>, used: nat, attributes: seq<Attribute>)
    returns (used': nat, ghost stored: seq<Attribute>)
    requires used + |LayoutAttributes(attributes)| <= buffer.Length
    modifies buffer
    ensures used' == used + |LayoutAttributes(attributes)| && AttributesFor(stored, attributes)
    ensures buffer[..used'] == old(buffer[..used]) + LayoutAttributes(stored)
  {
    hide LayoutAttribute, AttributeFor;
    used', stored := used, [];
    var a := 0;
    while a < |attributes|
      invariant 0 <= a <= |attributes| && AttributesFor(stored, attributes[..a])
      invariant used' + |LayoutAttributes(attributes[a..])| == used + |LayoutAttributes(attributes)|
      invariant used' <= buffer.Length && buffer[..used'] == old(buffer[..used]) + LayoutAttributes(stored)
    {
      assert attributes[a..][1..] == attributes[a + 1..];
      ghost var x;
      used', x := WriteAttribute(buffer, used', attributes[a]);
      AttributesAppend(stored, x);
      stored := stored + [x];
      a := a + 1;
    }
  }

  method WriteKeys(buffer: array<Byte>, used: nat, keys: seq<Unsigned>) returns (used': nat)
    requires used + |LayoutKeys(keys)| <= buffer.Length
    modifies buffer
    ensures used' == used + |LayoutKeys(keys)| && buffer[..used'] == old(buffer[..used]) + LayoutKeys(keys)
  {
    used' := used;
    var k := 0;
    while k < |keys|
      invariant 0 <= k <= |keys|
      invariant used' + |LayoutKeys(keys[k..])| == used + |LayoutKeys(keys)|
      invariant used' <= buffer.Length && buffer[..used'] == old(buffer[..used]) + LayoutKeys(keys[..k])
    {
      assert keys[k..][1..] == keys[k + 1..];
      used' := Append(buffer, used', Bytes(keys[k], UNSIGNED));
      KeysAppend(keys[..k], keys[k]);
      assert keys[..k + 1] == keys[..k] + [keys[k]];
      k := k + 1;
    }
    assert keys[..k] == keys;
  }

  method WriteRelation(buffer: array<Byte>, used: nat, r: Relation) returns (used': nat, ghost stored: Relation)
    requires used + |LayoutRelation(r)| <= buffer.Length
    modifies buffer
    ensures used' == used + |LayoutRelation(r)| && RelationFor(stored, r)
    ensures buffer[..used'] == old(buffer[..used]) + LayoutRelation(stored)
  {
    hide LayoutAttributes, LayoutKeys, AttributeFor;
    ghost var name, attributes;
    used', name := AppendName(buffer, used, r.name);
    used' := Append(buffer, used', Bytes(|r.attributes|, SIZE_T));
    used', attributes := WriteAttributes(buffer, used', r.attributes);
    used' := Append(buffer, used', Bytes(|r.primaryKey|, SIZE_T));
    used' := WriteKeys(buffer, used', r.primaryKey);
    stored := r.(name := name, attributes := attributes);
  }

  method WriteRelations(buffer: array<Byte>, used: nat, relations: seq<Relation>)
    returns (used': nat, ghost stored: seq<Relation>)
    requires used + |LayoutRelations(relations)| <= buffer.Length
    modifies buffer
    ensures used' == used + |LayoutRelations(relations)| && RelationsFor(stored, relations)
    ensures buffer[..used'] == old(buffer[..used]) + LayoutRelations(stored)
  {
    hide LayoutRelation, RelationFor;
    used', stored := used, [];
    var r := 0;
    while r < |relations|
      invariant 0 <= r <= |relations| && RelationsFor(stored, relations[..r])
      invariant used' + |LayoutRelations(relations[r..])| == used + |LayoutRelations(relations)|
      invariant used' <= buffer.Length && buffer[..used'] == old(buffer[..used]) + LayoutRelations(stored)
    {
      assert relations[r..][1..] == relations[r + 1..];
      ghost var x;
      used', x := WriteRelation(buffer, used', relations[r]);
      RelationsAppend(stored, x);
      stored := stored + [x];
      r := r + 1;
    }
  }

  /** The page receives the length word and the layout, in just the bytes counted beforehand; the rest of it stays. */
  method WriteSchema(schema: Schema, data: array<Byte>) returns (miscounted: bool, ghost stored: Schema)
    requires SIZE_T + |Layout(schema)| <= data.Length
    modifies data
    ensures !miscounted && RelationsFor(stored.relations, schema.relations)
    ensures |Layout(schema)| < SIZE_LIMIT ==>
      SizeAt(data[..], 0, |Layout(schema)|) && SchemaAt(data[..], 8, stored)
    ensures data[..] == Bytes(|Layout(schema)|, SIZE_T) + Layout(stored) + old(data[SIZE_T + |Layout(schema)|..])
  {
    hide LayoutRelations, RelationFor, Bytes;
    var schemaSize := SizeOfSchema(schema);
    var bufferSize := schemaSize + SIZE_T;
    var buffer := new Byte[bufferSize];
    var used := Append(buffer, 0, Bytes(schemaSize, SIZE_T));
    used := Append(buffer, used, Bytes(|schema.relations|, SIZE_T));
    ghost var relations;
    used, relations := WriteRelations(buffer, used, schema.relations);
    stored := Schema(relations);
    miscounted := bufferSize != used;
    var written := buffer[..];
    assert written == buffer[..used];
    assert written == Bytes(schemaSize, SIZE_T) + Layout(stored);
    hide Layout, SizeAt, SchemaAt;
    MemCpy(data, 0, written);
    assert old(data[..0]) == [];
    if schemaSize < SIZE_LIMIT {
      SameSize(stored, schema);
      WrittenLies(data[..], schemaSize, stored, old(data[SIZE_T + schemaSize..]));
    }
  }

  lemma SameSize(stored: Schema, schema: Schema)
    requires RelationsFor(stored.relations, schema.relations)
    ensures |Layout(stored)| == |Layout(schema)|
  {
    SameRelations(stored.relations, schema.relations);
    hide LayoutRelations;
  }

  lemma WrittenLies(s: seq<Byte>, size: nat, stored: Schema, after: seq<Byte>)
    requires s == Bytes(size, SIZE_T) + Layout(stored) + after && size == |Layout(stored)| < SIZE_LIMIT
    ensures SizeAt(s, 0, size) && SchemaAt(s, 8, stored)
  {
    hide Bytes, Layout, SizeAt, SchemaAt;
    assert s[0..8] == Bytes(size, SIZE_T) && s[8..8 + size] == Layout(stored);
    SizeLies(s, 0, size);
    SchemaLies(s, 8, stored);
  }

  // ----- the round trip

  lemma {:induction false} SameAttributes(stored: seq<Attribute>, attributes: seq<Attribute>)
    requires AttributesFor(stored, attributes)
    ensures |LayoutAttributes(stored)| == |LayoutAttributes(attributes)| &&
            CutAttributes(stored) == CutAttributes(attributes)
  {
    if stored != [] {
      assert AttributeFor(stored[0], attributes[0]);
      SameAttributes(stored[1..], attributes[1..]);
    }
  }

  lemma {:induction false} SameRelations(stored: seq<Relation>, relations: seq<Relation>)
    requires RelationsFor(stored, relations)
    ensures |LayoutRelations(stored)| == |LayoutRelations(relations)| && CutRelations(stored) == CutRelations(relations)
  {
    if stored != [] {
      assert RelationFor(stored[0], relations[0]);
      SameAttributes(stored[0].attributes, relations[0].attributes);
      hide LayoutAttributes, LayoutKeys, AttributesFor;
      SameRelations(stored[1..], relations[1..]);
    }
  }

  ghost predicate AttributesNulFree(attributes: seq<Attribute>) {
    forall a :: 0 <= a < |attributes| ==> 0 !in attributes[a].name
  }

  ghost predicate RelationNulFree(r: Relation) {
    0 !in r.name && AttributesNulFree(r.attributes)
  }

  ghost predicate NulFree(schema: Schema) {
    forall r :: 0 <= r < |schema.relations| ==> RelationNulFree(schema.relations[r])
  }

  lemma {:induction false} AttributesKept(attributes: seq<Attribute>)
    ensures CutAttributes(attributes) == attributes <==> AttributesNulFree(attributes)
  {
    if attributes != [] {
      CutIsPrefix(attributes[0].name);
      AttributesKept(attributes[1..]);
      assert attributes == [attributes[0]] + attributes[1..];
      assert AttributesNulFree(attributes) <==> 0 !in attributes[0].name && AttributesNulFree(attributes[1..]) by {
        if 0 !in attributes[0].name && AttributesNulFree(attributes[1..]) {
          forall a | 0 <= a < |attributes| ensures 0 !in attributes[a].name {
            assert a > 0 ==> attributes[a] == attributes[1..][a - 1];
          }
        }
      }
    }
  }

  lemma {:induction false} RelationsKept(relations: seq<Relation>)
    ensures CutRelations(relations) == relations
      <==> forall r :: 0 <= r < |relations| ==> RelationNulFree(relations[r])
  {
    if relations != [] {
      CutIsPrefix(relations[0].name);
      AttributesKept(relations[0].attributes);
      RelationsKept(relations[1..]);
      assert relations == [relations[0]] + relations[1..];
      hide AttributesNulFree;
      forall r | 0 < r < |relations| ensures relations[r] == relations[1..][r - 1] {
      }
    }
  }

  /** A name without NUL is stored as it is, so then the bytes on the page are fixed too. */
  lemma StoredIfNulFree(stored: Schema, schema: Schema)
    requires RelationsFor(stored.relations, schema.relations) && NulFree(schema)
    ensures stored == schema
  {
    var xs, rs := stored.relations, schema.relations;
    forall r | 0 <= r < |xs| ensures xs[r] == rs[r] {
      assert RelationFor(xs[r], rs[r]) && RelationNulFree(rs[r]);
      var x, y := xs[r].attributes, rs[r].attributes;
      forall a | 0 <= a < |x| ensures x[a] == y[a] {
        assert AttributeFor(x[a], y[a]);
      }
      assert x == y;
    }
    assert xs == rs;
  }

  /** Reading back gives the schema itself exactly when no name holds a NUL. */
  lemma KeptIffNulFree(schema: Schema)
    ensures CutSchema(schema) == schema <==> NulFree(schema)
  {
    RelationsKept(schema.relations);
  }

  /** Saved and loaded again, the schema comes back with every name cut at its first NUL; so as it was, if it has
      none. */
  method SaveAndLoad(schema: Schema, data: array<Byte>) returns (loaded: Schema)
    requires SIZE_T + |Layout(schema)| <= data.Length < SIZE_LIMIT
    modifies data
    ensures loaded == CutSchema(schema) && (loaded == schema <==> NulFree(schema))
  {
    hide Bytes, LayoutRelations, CutRelations, NulFree, RelationsFor;
    var _, stored := WriteSchema(schema, data);
    SameRelations(stored.relations, schema.relations);
    KeptIffNulFree(schema);
    loaded := ReadSchema(data[..], stored);
  }
}
