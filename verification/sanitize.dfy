/** `sanitizeObjectForFirestore` over a small JSON-like value type: the store
    rejects `undefined` field values, so every `undefined` (at any depth) is
    replaced by `null` before a document is written. */
module Sanitize {
  import Seqs

  /** Scalars that pass through untouched. */
  datatype Primitive = Str(s: string) | Num(x: real) | Bool(b: bool)

  /** A JavaScript value as the sanitizer sees it. `Opaque` stands for a
      `Timestamp` or `Date` instance (an integer instant here): such objects
      are not descended into. */
  datatype Value =
    | Undefined
    | Null
    | Prim(p: Primitive)
    | Opaque(instant: int)
    | Arr(items: seq<Value>)
    | Obj(fields: seq<Field>)

  /** An own enumerable property of a plain object. */
  datatype Field = Field(key: string, value: Value)

  function FieldKey(f: Field): string { f.key }

  /** No `undefined` anywhere in the value. */
  predicate Defined(v: Value) {
    match v
    case Undefined => false
    case Arr(items) => forall i | 0 <= i < |items| :: Defined(items[i])
    case Obj(fields) => forall i | 0 <= i < |fields| :: Defined(fields[i].value)
    case _ => true
  }

  /** `r` has the shape of `v` at every depth: `undefined` and `null` both
      became `null`, primitives and instants are unchanged, arrays keep their
      length and objects their keys in order, element by element. */
  predicate SameShape(v: Value, r: Value)
    decreases v
  {
    match v
    case Undefined => r.Null?
    case Null => r.Null?
    case Prim(_) => r == v
    case Opaque(_) => r == v
    case Arr(items) =>
      && r.Arr? && |r.items| == |items|
      && forall i | 0 <= i < |items| :: SameShape(items[i], r.items[i])
    case Obj(fields) =>
      && r.Obj? && Seqs.Map(r.fields, FieldKey) == Seqs.Map(fields, FieldKey)
      && forall i | 0 <= i < |fields| :: SameShape(fields[i].value, r.fields[i].value)
  }

  function Sanitize(v: Value): (r: Value)
    ensures Defined(r)
    ensures SameShape(v, r)
    decreases v
  {
    match v
    case Undefined => Null
    case Null => Null
    case Prim(_) => v
    case Opaque(_) => v
    case Arr(items) =>
      Arr(seq(|items|, i requires 0 <= i < |items| => Sanitize(items[i])))
    case Obj(fields) =>
      var out := seq(|fields|, i requires 0 <= i < |fields| =>
        Field(fields[i].key, if fields[i].value.Undefined? then Null else Sanitize(fields[i].value)));
      assert forall i | 0 <= i < |fields| :: Seqs.Map(out, FieldKey)[i] == Seqs.Map(fields, FieldKey)[i];
      Obj(out)
  }

  /** A value that already holds no `undefined` is left exactly as it is. */
  lemma {:induction false} SanitizeKeepsDefined(v: Value)
    requires Defined(v)
    ensures Sanitize(v) == v
    decreases v
  {
    match v
    case Arr(items) =>
      forall i | 0 <= i < |items| ensures Sanitize(items[i]) == items[i] {
        SanitizeKeepsDefined(items[i]);
      }
      assert Sanitize(v).items == items;
    case Obj(fields) =>
      forall i | 0 <= i < |fields| ensures Sanitize(fields[i].value) == fields[i].value {
        SanitizeKeepsDefined(fields[i].value);
      }
      assert Sanitize(v).fields == fields;
    case _ =>
  }

  /** Sanitizing twice is the same as sanitizing once. */
  lemma SanitizeIdempotent(v: Value)
    ensures Sanitize(Sanitize(v)) == Sanitize(v)
  {
    SanitizeKeepsDefined(Sanitize(v));
  }

  /** Exactly the values without `undefined` are fixed points. */
  lemma SanitizeFixedPoints(v: Value)
    ensures Sanitize(v) == v <==> Defined(v)
  {
    if Defined(v) {
      SanitizeKeepsDefined(v);
    }
  }
}
