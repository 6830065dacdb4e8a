/**
 * The values the database driver hands back (JSON-like trees) and the recursive
 * converter that replaces every driver integer, an object with numeric `low` and
 * `high` fields, by the plain number `low` (src/lib/utils.ts).
 */
module Neo4jValues {

  /** A JavaScript value as far as the converter looks at it; numbers are reals. */
  datatype Value =
    | Null
    | Undefined
    | Str(s: string)
    | Num(n: real)
    | Bool(b: bool)
    | Arr(items: seq<Value>)
    | Obj(fields: map<string, Value>)

  predicate IsPrimitive(v: Value)
  {
    v.Str? || v.Num? || v.Bool?
  }

  /** The type guard: an object (not null, not an array) whose `low` and `high` are numbers. */
  predicate IsNeo4jInteger(v: Value): (r: bool)
    ensures r ==> !(v.Null? || v.Undefined? || v.Arr? || IsPrimitive(v))
    ensures (v.Obj? && "low" in v.fields && "high" in v.fields
             && v.fields["low"].Num? && v.fields["high"].Num?) ==> r
  {
    && v.Obj?
    && "low" in v.fields && "high" in v.fields
    && v.fields["low"].Num? && v.fields["high"].Num?
  }

  /** The converter: null and undefined as they are, a driver integer to `low`,
      arrays element by element, other objects key by key, primitives as they are. */
  function Serialize(v: Value): (r: Value)
    ensures v.Null? || v.Undefined? ==> r == v
    ensures IsPrimitive(v) ==> r == v
    ensures IsNeo4jInteger(v) ==> r == Num(v.fields["low"].n)
    ensures v.Arr? ==> r.Arr? && |r.items| == |v.items|
                       && forall i :: 0 <= i < |v.items| ==> r.items[i] == Serialize(v.items[i])
    ensures v.Obj? && !IsNeo4jInteger(v) ==>
              r.Obj? && r.fields.Keys == v.fields.Keys
              && forall k :: k in v.fields ==> r.fields[k] == Serialize(v.fields[k])
  {
    match v
    case Null => v
    case Undefined => v
    case Obj(fields) =>
      if IsNeo4jInteger(v) then Num(fields["low"].n)
      else Obj(map k | k in fields :: Serialize(fields[k]))
    case Arr(items) => Arr(seq(|items|, i requires 0 <= i < |items| => Serialize(items[i])))
    case _ => v
  }

  /** No driver integer anywhere inside `v`. */
  predicate HasNoIntegers(v: Value)
  {
    match v
    case Arr(items) => forall i :: 0 <= i < |items| ==> HasNoIntegers(items[i])
    case Obj(fields) => !IsNeo4jInteger(v) && forall k :: k in fields ==> HasNoIntegers(fields[k])
    case _ => true
  }

  /** A value without driver integers comes back structurally equal to itself. */
  lemma {:induction false} SerializeWithoutIntegers(v: Value)
    requires HasNoIntegers(v)
    ensures Serialize(v) == v
  {
    match v
    case Arr(items) =>
      forall i | 0 <= i < |items| ensures Serialize(items[i]) == items[i] {
        SerializeWithoutIntegers(items[i]);
      }
      assert Serialize(v).items == items;
    case Obj(fields) =>
      forall k | k in fields ensures Serialize(fields[k]) == fields[k] {
        SerializeWithoutIntegers(fields[k]);
      }
      assert Serialize(v).fields == fields;
    case _ =>
  }

  /** The converter is not idempotent: a driver integer nested in `low` needs two passes. */
  lemma SerializeNotIdempotent()
    ensures var v := Obj(map["low" := Obj(map["low" := Num(1.0), "high" := Num(0.0)]), "high" := Num(2.0)]);
            && Serialize(v) == Obj(map["low" := Num(1.0), "high" := Num(2.0)])
            && Serialize(Serialize(v)) == Num(1.0)
  {
    var inner := Obj(map["low" := Num(1.0), "high" := Num(0.0)]);
    var v := Obj(map["low" := inner, "high" := Num(2.0)]);
    assert !IsNeo4jInteger(v);
    assert Serialize(inner) == Num(1.0);
    assert Serialize(Num(2.0)) == Num(2.0);
    assert Serialize(v).fields == map["low" := Num(1.0), "high" := Num(2.0)];
  }

  const Two32: int := 0x1_0000_0000
  const Two31: int := 0x8000_0000

  /** The lower 32 bits of `n`, read as a signed 32-bit number. */
  function Low32(n: int): (r: int)
    ensures -Two31 <= r < Two31
    ensures (n - r) % Two32 == 0
  {
    var m := n % Two32;
    if m >= Two31 then m - Two32 else m
  }

  /** The upper 32 bits of `n`, as a signed number (the floor of `n / 2^32`). */
  function High32(n: int): int
  {
    n / Two32
  }

  /** The driver's integer object for `n`: its low and high words, each a signed 32-bit number. */
  function NeoInteger(n: int): Value
  {
    Obj(map["low" := Num(Low32(n) as real), "high" := Num(High32(n) as real)])
  }

  /** Every driver integer passes the type guard, and the driver's own reading of the
      two words, `high * 2^32 + (low >>> 0)`, gives back `n`; the high word fits in
      32 signed bits exactly when `n` fits in 64. */
  lemma NeoIntegerDecodes(n: int)
    ensures IsNeo4jInteger(NeoInteger(n))
    ensures NeoInteger(n).fields["low"] == Num(Low32(n) as real)
    ensures NeoInteger(n).fields["high"] == Num(High32(n) as real)
    ensures High32(n) * Two32 + Low32(n) % Two32 == n
    ensures -Two31 <= High32(n) < Two31 <==> -Two31 * Two32 <= n < Two31 * Two32
  {
    assert Low32(n) % Two32 == n % Two32;
  }

  /** Converting a driver integer keeps only its low word, which is `n` exactly
      when `n` fits in 32 signed bits. */
  lemma SerializeNeoInteger(n: int)
    ensures Serialize(NeoInteger(n)) == Num(Low32(n) as real)
    ensures Serialize(NeoInteger(n)) == Num(n as real) <==> -Two31 <= n < Two31
  {
    assert IsNeo4jInteger(NeoInteger(n));
    if -Two31 <= n < Two31 {
      assert n % Two32 == if n >= 0 then n else n + Two32;
    }
  }
}
