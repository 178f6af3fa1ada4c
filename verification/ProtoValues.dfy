/** Conversion between the SDK's dynamic values and the protobuf messages `Value`, `ListValue` and
    `Struct`. */
module ProtoValues {

  /** What a `ProtoValue` holds. */
  datatype ProtoValue =
    | Null
    | Bool(b: bool)
    | Double(d: real)
    | String(s: string)
    | List(elements: seq<ProtoValue>)
    | Struct(fields: map<string, ProtoValue>)

  datatype Kind = KNull | KBool | KDouble | KString | KList | KStruct

  function KindOf(v: ProtoValue): Kind {
    match v
    case Null => KNull
    case Bool(_) => KBool
    case Double(_) => KDouble
    case String(_) => KString
    case List(_) => KList
    case Struct(_) => KStruct
  }

  /** The protobuf message `Value`: one of six kinds, or none set. */
  datatype Value =
    | KindNotSet
    | NullValue
    | BoolValue(bool)
    | NumberValue(real)
    | StringValue(string)
    | ListValue(values: seq<Value>)
    | StructValue(entries: map<string, Value>)

  // ----- the conversions

  function ToProto(v: ProtoValue): Value {
    match v
    case Null => NullValue
    case Bool(b) => BoolValue(b)
    case Double(d) => NumberValue(d)
    case String(s) => StringValue(s)
    case List(elements) => ListValue(seq(|elements|, i requires 0 <= i < |elements| => ToProto(elements[i])))
    case Struct(fields) => StructValue(map k | k in fields :: ToProto(fields[k]))
  }

  function FromProto(w: Value): ProtoValue {
    match w
    case BoolValue(b) => Bool(b)
    case StringValue(s) => String(s)
    case NumberValue(d) => Double(d)
    case ListValue(values) => List(seq(|values|, i requires 0 <= i < |values| => FromProto(values[i])))
    case StructValue(entries) => Struct(map k | k in entries :: FromProto(entries[k]))
    case KindNotSet => Null
    case NullValue => Null
  }

  /** The message with every unset kind, at any depth, made null. */
  function Normalize(w: Value): Value {
    match w
    case KindNotSet => NullValue
    case ListValue(values) => ListValue(seq(|values|, i requires 0 <= i < |values| => Normalize(values[i])))
    case StructValue(entries) => StructValue(map k | k in entries :: Normalize(entries[k]))
    case _ => w
  }

  ghost predicate FullySet(w: Value) {
    match w
    case KindNotSet => false
    case ListValue(values) => forall i :: 0 <= i < |values| ==> FullySet(values[i])
    case StructValue(entries) => forall k :: k in entries ==> FullySet(entries[k])
    case _ => true
  }

  lemma {:induction false} ValueRoundTrip(v: ProtoValue)
    ensures FromProto(ToProto(v)) == v
  {
    match v
    case List(elements) =>
      forall i | 0 <= i < |elements| ensures FromProto(ToProto(elements[i])) == elements[i] {
        ValueRoundTrip(elements[i]);
      }
      assert FromProto(ToProto(v)).elements == elements;
    case Struct(fields) =>
      forall k | k in fields ensures FromProto(ToProto(fields[k])) == fields[k] {
        ValueRoundTrip(fields[k]);
      }
      assert FromProto(ToProto(v)).fields == fields;
    case _ =>
  }

  /** Writing a message and reading it back writes null where no kind was set, at any depth, and
      changes nothing else. */
  lemma {:induction false} MessageRoundTrip(w: Value)
    ensures ToProto(FromProto(w)) == Normalize(w)
  {
    match w
    case ListValue(values) =>
      forall i | 0 <= i < |values| ensures ToProto(FromProto(values[i])) == Normalize(values[i]) {
        MessageRoundTrip(values[i]);
      }
      assert ToProto(FromProto(w)).values == Normalize(w).values;
    case StructValue(entries) =>
      forall k | k in entries ensures ToProto(FromProto(entries[k])) == Normalize(entries[k]) {
        MessageRoundTrip(entries[k]);
      }
      assert ToProto(FromProto(w)).entries == Normalize(w).entries;
    case _ =>
  }

  /** Exactly the messages with a kind set everywhere are left alone by normalising. */
  lemma {:induction false} NormalizeFixes(w: Value)
    ensures Normalize(w) == w <==> FullySet(w)
  {
    match w
    case ListValue(values) =>
      forall i | 0 <= i < |values| ensures Normalize(values[i]) == values[i] <==> FullySet(values[i]) {
        NormalizeFixes(values[i]);
      }
      var normal := Normalize(w).values;
      assert normal == values <==> forall i :: 0 <= i < |values| ==> normal[i] == values[i];
    case StructValue(entries) =>
      forall k | k in entries ensures Normalize(entries[k]) == entries[k] <==> FullySet(entries[k]) {
        NormalizeFixes(entries[k]);
      }
      var normal := Normalize(w).entries;
      assert normal == entries <==> forall k :: k in entries ==> normal[k] == entries[k];
    case _ =>
  }

  /** A message survives the round trip exactly when a kind is set everywhere in it. */
  lemma {:induction false} MessageSurvivesIff(w: Value)
    ensures ToProto(FromProto(w)) == w <==> FullySet(w)
  {
    MessageRoundTrip(w);
    NormalizeFixes(w);
  }

  /** Everything the SDK writes has a kind set everywhere, so normalising is idempotent. */
  lemma {:induction false} WrittenIsFullySet(v: ProtoValue)
    ensures FullySet(ToProto(v))
  {
    ValueRoundTrip(v);
    MessageSurvivesIff(ToProto(v));
  }

  lemma {:induction false} NormalizeIsIdempotent(w: Value)
    ensures Normalize(Normalize(w)) == Normalize(w)
  {
    MessageRoundTrip(w);
    WrittenIsFullySet(FromProto(w));
    NormalizeFixes(Normalize(w));
  }

  /** Two messages are read as the same value exactly when they differ only in unset kinds. */
  lemma ReadAlikeIff(w: Value, w': Value)
    ensures FromProto(w) == FromProto(w') <==> Normalize(w) == Normalize(w')
  {
    MessageRoundTrip(w);
    MessageRoundTrip(w');
    ValueRoundTrip(FromProto(w));
    ValueRoundTrip(FromProto(w'));
  }

  // ----- elements of lists and structs

  datatype Selector = Element(i: nat) | Field(key: string)

  predicate HasChild(v: ProtoValue, s: Selector) {
    match s
    case Element(i) => v.List? && i < |v.elements|
    case Field(key) => v.Struct? && key in v.fields
  }

  function Child(v: ProtoValue, s: Selector): ProtoValue
    requires HasChild(v, s)
  {
    match s
    case Element(i) => v.elements[i]
    case Field(key) => v.fields[key]
  }

  /** The path leads from `v` to an element, an element of an element, or nowhere else. */
  predicate HasPart(v: ProtoValue, path: seq<Selector>)
    decreases path
  {
    path == [] || (HasChild(v, path[0]) && HasPart(Child(v, path[0]), path[1..]))
  }

  function PartOf(v: ProtoValue, path: seq<Selector>): ProtoValue
    requires HasPart(v, path)
    decreases path
  {
    if path == [] then v else PartOf(Child(v, path[0]), path[1..])
  }

  /** The same for messages. */
  predicate HasMessageChild(w: Value, s: Selector) {
    match s
    case Element(i) => w.ListValue? && i < |w.values|
    case Field(key) => w.StructValue? && key in w.entries
  }

  function MessageChild(w: Value, s: Selector): Value
    requires HasMessageChild(w, s)
  {
    match s
    case Element(i) => w.values[i]
    case Field(key) => w.entries[key]
  }

  predicate HasMessagePart(w: Value, path: seq<Selector>)
    decreases path
  {
    path == [] || (HasMessageChild(w, path[0]) && HasMessagePart(MessageChild(w, path[0]), path[1..]))
  }

  function MessagePart(w: Value, path: seq<Selector>): Value
    requires HasMessagePart(w, path)
    decreases path
  {
    if path == [] then w else MessagePart(MessageChild(w, path[0]), path[1..])
  }

  /** The kind is that of what is held. */
  lemma KindMeaning(v: ProtoValue)
    ensures KindOf(v) == KNull <==> v == Null
    ensures KindOf(v) == KBool <==> v in {Bool(false), Bool(true)}
    ensures KindOf(v) == KDouble <==> exists d :: v == Double(d)
    ensures KindOf(v) == KString <==> exists s :: v == String(s)
    ensures KindOf(v) == KList <==> exists elements :: v == List(elements)
    ensures KindOf(v) == KStruct <==> exists fields :: v == Struct(fields)
  {
    assert v.Double? ==> v == Double(v.d);
    assert v.String? ==> v == String(v.s);
    assert v.List? ==> v == List(v.elements);
    assert v.Struct? ==> v == Struct(v.fields);
  }

  /** Value and message are of the same kind, with the same scalar, length or keys. */
  predicate Alike(v: ProtoValue, w: Value) {
    && (v == Null <==> w == NullValue || w == KindNotSet)
    && (forall b :: v == Bool(b) <==> w == BoolValue(b))
    && (v.Double? <==> w.NumberValue?) && (v.Double? ==> w == NumberValue(v.d))
    && (v.String? <==> w.StringValue?) && (v.String? ==> w == StringValue(v.s))
    && (v.List? <==> w.ListValue?) && (v.List? ==> |v.elements| == |w.values|)
    && (v.Struct? <==> w.StructValue?) && (v.Struct? ==> v.fields.Keys == w.entries.Keys)
  }

  /** At the end of every path, position by position and key by key, the written message holds what
      the value does, and it has no other paths. */
  lemma {:induction false} WrittenAtEveryPath(v: ProtoValue, path: seq<Selector>)
    ensures HasMessagePart(ToProto(v), path) <==> HasPart(v, path)
    ensures HasPart(v, path) ==>
      && Alike(PartOf(v, path), MessagePart(ToProto(v), path))
      && MessagePart(ToProto(v), path) != KindNotSet
    decreases path
  {
    if path != [] && HasChild(v, path[0]) {
      WrittenAtEveryPath(Child(v, path[0]), path[1..]);
      assert MessageChild(ToProto(v), path[0]) == ToProto(Child(v, path[0]));
    }
  }

  /** The same for the value that is read from a message. */
  lemma {:induction false} ReadAtEveryPath(w: Value, path: seq<Selector>)
    ensures HasPart(FromProto(w), path) <==> HasMessagePart(w, path)
    ensures HasMessagePart(w, path) ==> Alike(PartOf(FromProto(w), path), MessagePart(w, path))
    decreases path
  {
    if path != [] && HasMessageChild(w, path[0]) {
      ReadAtEveryPath(MessageChild(w, path[0]), path[1..]);
      assert Child(FromProto(w), path[0]) == FromProto(MessageChild(w, path[0]));
    }
  }

  // ----- the loops of the conversions

  /** Fills a message: list elements in order, map entries in any order. */
  method WriteValue(v: ProtoValue) returns (w: Value)
    ensures w == ToProto(v)
    decreases v
  {
    match v
    case Null =>
      w := NullValue;
    case Bool(b) =>
      w := BoolValue(b);
    case Double(d) =>
      w := NumberValue(d);
    case String(s) =>
      w := StringValue(s);
    case List(elements) =>
      var values := [];
      for i := 0 to |elements|
        invariant |values| == i && forall k :: 0 <= k < i ==> values[k] == ToProto(elements[k])
      {
        var value := WriteValue(elements[i]);
        values := values + [value];
      }
      w := ListValue(values);
      assert values == ToProto(v).values;
    case Struct(fields) =>
      var entries := map[];
      var unseen := fields.Keys;
      while unseen != {}
        invariant unseen <= fields.Keys && entries.Keys == fields.Keys - unseen
        invariant forall k :: k in entries ==> entries[k] == ToProto(fields[k])
        decreases unseen
      {
        var k :| k in unseen;
        var value := WriteValue(fields[k]);
        entries := entries[k := value];
        unseen := unseen - {k};
      }
      w := StructValue(entries);
      assert entries == ToProto(v).entries;
  }

  method ReadValue(w: Value) returns (v: ProtoValue)
    ensures v == FromProto(w)
    decreases w
  {
    match w
    case BoolValue(b) =>
      v := Bool(b);
    case StringValue(s) =>
      v := String(s);
    case NumberValue(d) =>
      v := Double(d);
    case ListValue(values) =>
      var elements := [];
      for i := 0 to |values|
        invariant |elements| == i && forall k :: 0 <= k < i ==> elements[k] == FromProto(values[k])
      {
        var element := ReadValue(values[i]);
        elements := elements + [element];
      }
      v := List(elements);
      assert elements == FromProto(w).elements;
    case StructValue(entries) =>
      var fields := map[];
      var unseen := entries.Keys;
      while unseen != {}
        invariant unseen <= entries.Keys && fields.Keys == entries.Keys - unseen
        invariant forall k :: k in fields ==> fields[k] == FromProto(entries[k])
        decreases unseen
      {
        var k :| k in unseen;
        var field := ReadValue(entries[k]);
        fields := fields[k := field];
        unseen := unseen - {k};
      }
      v := Struct(fields);
      assert fields == FromProto(w).fields;
    case KindNotSet =>
      v := Null;
    case NullValue =>
      v := Null;
  }

  // ----- equality

  /** `operator==`: the kinds agree, and then the stored values by their own equality; lists
      element by element, maps by size and by looking up each key of the left in the right. */
  predicate Equal(a: ProtoValue, b: ProtoValue) {
    && KindOf(a) == KindOf(b)
    && match a
       case Null => true
       case Bool(x) => x == b.b
       case Double(x) => x == b.d
       case String(x) => x == b.s
       case List(xs) =>
         |xs| == |b.elements| && forall i :: 0 <= i < |xs| ==> Equal(xs[i], b.elements[i])
       case Struct(m) =>
         |m| == |b.fields| && forall k :: k in m ==> k in b.fields && Equal(m[k], b.fields[k])
  }

  lemma SameSizeKeys<V>(a: map<string, V>, b: map<string, V>)
    requires |a| == |b| && a.Keys <= b.Keys
    ensures a.Keys == b.Keys
  {
    assert |a.Keys| == |b.Keys|;
    assert b.Keys == a.Keys + (b.Keys - a.Keys);
  }

  /** Values are equal exactly when they hold the same, hence exactly when they are written as the
      same message. */
  lemma {:induction false} EqualIffSame(a: ProtoValue, b: ProtoValue)
    ensures Equal(a, b) <==> a == b
  {
    if KindOf(a) == KindOf(b) {
      match a
      case List(xs) =>
        forall i | 0 <= i < |xs| && i < |b.elements| ensures Equal(xs[i], b.elements[i]) <==> xs[i] == b.elements[i] {
          EqualIffSame(xs[i], b.elements[i]);
        }
        assert Equal(a, b) ==> xs == b.elements;
      case Struct(m) =>
        forall k | k in m && k in b.fields ensures Equal(m[k], b.fields[k]) <==> m[k] == b.fields[k] {
          EqualIffSame(m[k], b.fields[k]);
        }
        if Equal(a, b) {
          SameSizeKeys(m, b.fields);
          assert m == b.fields;
        }
      case _ =>
    }
  }

  lemma EqualIffWrittenAlike(a: ProtoValue, b: ProtoValue)
    ensures Equal(a, b) <==> ToProto(a) == ToProto(b)
  {
    EqualIffSame(a, b);
    ValueRoundTrip(a);
    ValueRoundTrip(b);
  }
}
