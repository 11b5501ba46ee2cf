/** Field descriptors of the sorted-row mapper and the per-field codec
    (`HBaseField`, the integer field, `TimeStampField`, and
    `HBaseModel.serialize_field` / the value half of `deserialize_field`). */
module Fields {
  import opened Wrappers
  import opened Sequences
  import opened Strings

  /** Integers are left-padded with '0' to this many characters. */
  const IntWidth: nat := 16

  /** `field_type`: None on the base class, 'int' on the integer field
      (spelled `IntergerField` where it is declared, `IntegerField` where it
      is imported and used), 'timestamp' on `TimeStampField`. */
  datatype FieldKind = PlainKind | IntKind | TimeStampKind

  function FieldType(kind: FieldKind): Option<string> {
    match kind
    case PlainKind => None
    case IntKind => Some("int")
    case TimeStampKind => Some("timestamp")
  }

  /** A declared attribute of a record type. `columnFamily == None` is
      Python's `column_family=None`. */
  datatype Field = Field(name: string, kind: FieldKind, reverse: bool, columnFamily: Option<string>)

  /** The constructors, with `HBaseField.__init__`'s defaults. */
  function IntegerField(name: string, reverse: bool := false, columnFamily: Option<string> := None): Field {
    Field(name, IntKind, reverse, columnFamily)
  }

  function TimeStampField(name: string, reverse: bool := false, columnFamily: Option<string> := None): Field {
    Field(name, TimeStampKind, reverse, columnFamily)
  }

  /** A field whose column family is falsy (None or '') is a row-key component;
      any other field is a stored column. */
  predicate IsRowKeyField(f: Field) {
    f.columnFamily == None || f.columnFamily == Some("")
  }

  /** The Python values the mapper handles: integers (ids, timestamps) and strings. */
  datatype Value = IntVal(i: int) | StrVal(s: string)

  /** Python's `str(value)`. */
  function ValueString(v: Value): string {
    match v
    case IntVal(i) => IntToString(i)
    case StrVal(s) => s
  }

  /** `serialize_field`: `str()`, zero-padded to 16 on integer fields only,
      then reversed on a `reverse` field. */
  function SerializeField(f: Field, v: Value): (r: string)
    ensures f.kind == IntKind ==> |r| == if |ValueString(v)| < IntWidth then IntWidth else |ValueString(v)|
    ensures f.kind != IntKind ==> |r| == |ValueString(v)|
    ensures ':' in r <==> ':' in ValueString(v)
  {
    var s := ValueString(v);
    var padded := if f.kind == IntKind then ZeroPad(s, IntWidth) else s;
    assert ':' in padded <==> ':' in s by {
      if ':' in padded && f.kind == IntKind && |s| < IntWidth {
        var k :| 0 <= k < |padded| && padded[k] == ':';
        assert k >= IntWidth - |s| && s[k - (IntWidth - |s|)] == ':';
      }
      if ':' in s && f.kind == IntKind && |s| < IntWidth {
        var k :| 0 <= k < |s| && s[k] == ':';
        assert padded[k + (IntWidth - |s|)] == ':';
      }
    }
    if f.reverse then
      var r := Reverse(padded);
      assert ':' in r <==> ':' in padded by {
        if ':' in r {
          var k :| 0 <= k < |r| && r[k] == ':';
          assert padded[|padded| - 1 - k] == ':';
        }
        if ':' in padded {
          var k :| 0 <= k < |padded| && padded[k] == ':';
          assert r[|padded| - 1 - k] == ':';
        }
      }
      r
    else padded
  }

  /** The value half of `deserialize_field`: undo the reversal, then `int()`
      on integer and timestamp fields. `None` is the `ValueError` of `int()`. */
  function DeserializeValue(f: Field, s: string): (r: Option<Value>)
    ensures f.kind == PlainKind ==>
      (r.Some? && r.value.StrVal? && (if f.reverse then Reverse(r.value.s) else r.value.s) == s)
    ensures f.kind != PlainKind ==> (r.Some? <==> ParseInt(if f.reverse then Reverse(s) else s).Some?)
    ensures f.kind != PlainKind && r.Some? ==> r.value.IntVal?
    ensures f.kind != PlainKind && s == [] ==> r.None?
  {
    var t := if f.reverse then Reverse(s) else s;
    ReverseInvolution(s);
    if f.kind == PlainKind then Some(StrVal(t))
    else
      var i :- ParseInt(t);
      Some(IntVal(i))
  }

  /** Values a field can carry and get back unchanged: naturals on integer
      fields (a negative one is padded into something `int()` rejects), any
      integer on timestamp fields, strings on untyped fields. */
  predicate Fits(f: Field, v: Value) {
    match f.kind
    case IntKind => v.IntVal? && v.i >= 0
    case TimeStampKind => v.IntVal?
    case PlainKind => v.StrVal?
  }

  /** Deserialising a serialised value gives the value back. */
  lemma FieldRoundTrip(f: Field, v: Value)
    requires Fits(f, v)
    ensures DeserializeValue(f, SerializeField(f, v)) == Some(v)
  {
    var s := ValueString(v);
    var padded := if f.kind == IntKind then ZeroPad(s, IntWidth) else s;
    if f.reverse {
      ReverseInvolution(padded);
    }
    match f.kind
    case IntKind => ParseIntZeroPadded(v.i, IntWidth);
    case TimeStampKind => ParseIntToString(v.i);
    case PlainKind =>
  }

  /** Serialisation loses nothing: two values a field can carry serialise
      to the same string only if they are equal. */
  lemma SerializeFieldInjective(f: Field, v: Value, w: Value)
    requires Fits(f, v) && Fits(f, w)
    ensures SerializeField(f, v) == SerializeField(f, w) <==> v == w
  {
    FieldRoundTrip(f, v);
    FieldRoundTrip(f, w);
  }

  /** On a non-reversed integer field, for naturals below 10^16, the string
      order of the serialised values is the numeric order. */
  lemma IntFieldOrder(f: Field, a: nat, b: nat)
    requires f.kind == IntKind && !f.reverse
    requires a < Pow10(IntWidth) && b < Pow10(IntWidth)
    ensures LexLess(SerializeField(f, IntVal(a)), SerializeField(f, IntVal(b))) <==> a < b
  {
    ZeroPadIsFixedDigits(a, IntWidth);
    ZeroPadIsFixedDigits(b, IntWidth);
    FixedDigitsOrder(a, b, IntWidth);
  }

  /** A reversed integer value starts with its least significant digit. */
  lemma ReversedIntFirstChar(f: Field, n: nat)
    requires f.kind == IntKind && f.reverse
    ensures |SerializeField(f, IntVal(n))| > 0
    ensures SerializeField(f, IntVal(n))[0] == DigitChar(n % 10)
  {
    var s := NatToString(n);
    var padded := ZeroPad(s, IntWidth);
    assert s[|s| - 1] == DigitChar(n % 10);
    assert padded[|padded| - 1] == s[|s| - 1];
  }

  /** A reversed integer field neither keeps nor inverts numeric order: 1 < 2
      serialise in the same order, while 1 < 10 serialise in the opposite one
      (reversal puts the least significant digit first). */
  lemma ReversedIntFieldOrderIsNeither(f: Field)
    requires f.kind == IntKind && f.reverse
    ensures LexLess(SerializeField(f, IntVal(1)), SerializeField(f, IntVal(2)))
    ensures LexLess(SerializeField(f, IntVal(10)), SerializeField(f, IntVal(1)))
  {
    var one, two, ten := SerializeField(f, IntVal(1)), SerializeField(f, IntVal(2)), SerializeField(f, IntVal(10));
    ReversedIntFirstChar(f, 1);
    ReversedIntFirstChar(f, 2);
    ReversedIntFirstChar(f, 10);
    assert one[0] == '1' && two[0] == '2' && ten[0] == '0';
  }
}
