/**
 * The canonical JSON of packages/commands/src/pipeline.ts, which request hashes are taken of and results are stored as,
 * and the reviver that reads it back.
 */
module CanonicalJson {
  import opened Sequences

  /** A payload or result: what JSON has, and big integers. An object's keys are in the order they were set. */
  datatype Value =
    | Null
    | Bool(b: bool)
    | Num(n: int)
    | Str(s: string)
    | Big(i: int)
    | Arr(items: seq<Value>)
    | Obj(keys: seq<string>, fields: map<string, Value>)

  datatype Json =
    | JNull
    | JBool(b: bool)
    | JNum(n: int)
    | JStr(s: string)
    | JArr(items: seq<Json>)
    | JObj(keys: seq<string>, fields: map<string, Json>)

  const BIGINT := "$bigint"

  // ---- decimal digits ---------------------------------------------------------------------------------------------

  function Natural(n: nat): (r: string)
    ensures r != []
  {
    if n < 10 then [Digit(n)] else Natural(n / 10) + [Digit(n % 10)]
  }

  function Digit(d: nat): char
    requires d < 10
  {
    '0' + d as char
  }

  function Decimal(i: int): string {
    if i < 0 then "-" + Natural(-i) else Natural(i)
  }

  function ParseNatural(s: string): Option<nat> {
    if s == [] then None
    else
      var d := Last(s);
      if !('0' <= d <= '9') then None
      else if |s| == 1 then Some((d - '0') as nat)
      else
        var rest := ParseNatural(s[..|s| - 1]);
        if rest.None? then None else Some(rest.value * 10 + (d - '0') as nat)
  }

  /** `BigInt` of a string of decimal digits; of other strings it is taken to throw. */
  function ParseBig(s: string): Option<int> {
    if s != [] && s[0] == '-' then
      var n := ParseNatural(s[1..]);
      if n.None? then None
      else
        var i: int := n.value;
        Some(-i)
    else
      var n := ParseNatural(s);
      if n.None? then None else Some(n.value)
  }

  lemma {:induction false} NaturalParses(n: nat)
    ensures ParseNatural(Natural(n)) == Some(n) && '0' <= Natural(n)[0] <= '9'
  {
    if n >= 10 {
      NaturalParses(n / 10);
      var s := Natural(n);
      assert s[..|s| - 1] == Natural(n / 10);
    }
  }

  lemma DecimalParses(i: int)
    ensures ParseBig(Decimal(i)) == Some(i)
  {
    NaturalParses(if i < 0 then -i else i);
    if i < 0 { assert Decimal(i)[1..] == Natural(-i); }
  }

  // ---- key order --------------------------------------------------------------------------------------------------

  /** Strings by their code units. */
  predicate Less(a: string, b: string) {
    b != [] && (a == [] || a[0] < b[0] || (a[0] == b[0] && Less(a[1..], b[1..])))
  }

  lemma {:induction false} LessIsTotal(a: string, b: string)
    ensures Less(a, b) || Less(b, a) || a == b
    ensures !(Less(a, b) && Less(b, a)) && (a == b ==> !Less(a, b))
  {
    if a != [] && b != [] {
      LessIsTotal(a[1..], b[1..]);
      assert a == [a[0]] + a[1..] && b == [b[0]] + b[1..];
    }
  }

  lemma {:induction false} LessOn(a: string, b: string, c: string)
    requires Less(a, b) && Less(b, c)
    ensures Less(a, c)
  {
    if a != [] && a[0] == b[0] == c[0] { LessOn(a[1..], b[1..], c[1..]); }
  }

  lemma LessIsAnOrder()
    ensures StrictWeakOrder(Less)
  {
    hide Less;
    forall x, y: string
      ensures !Less(x, x) && (Less(x, y) ==> !Less(y, x))
    {
      LessIsTotal(x, x);
      LessIsTotal(x, y);
    }
    forall x, y, z | Less(x, y) && Less(y, z)
      ensures Less(x, z)
    {
      LessOn(x, y, z);
    }
    forall x, y, z | !Less(x, y) && !Less(y, z)
      ensures !Less(x, z)
    {
      LessIsTotal(x, y);
      LessIsTotal(y, z);
      LessIsTotal(x, z);
      if Less(x, z) && y != z && x != y { LessOn(z, y, x); LessIsTotal(x, z); }
    }
  }

  /** One set of keys sorts to one sequence. */
  lemma {:induction false} SortedAlike(a: seq<string>, b: seq<string>)
    requires Distinct(a) && Distinct(b) && Ascending(Less, a) && Ascending(Less, b) && forall k :: k in a <==> k in b
    ensures a == b
  {
    hide Less;
    if a != [] && b != [] {
      FirstIsLeast(a, b);
      FirstIsLeast(b, a);
      LessIsTotal(a[0], b[0]);
      forall k
        ensures k in a[1..] <==> k in b[1..]
      {
        RestHolds(a, k);
        RestHolds(b, k);
      }
      SortedAlike(a[1..], b[1..]);
      assert a == [a[0]] + a[1..] && b == [b[0]] + b[1..];
    } else {
      EmptyIfNone(a);
      EmptyIfNone(b);
    }
  }

  lemma RestHolds(a: seq<string>, k: string)
    requires Distinct(a) && a != []
    ensures k in a[1..] <==> k in a && k != a[0]
  {
    if k in a && k != a[0] {
      var i :| 0 <= i < |a| && a[i] == k;
      assert a[1..][i - 1] == k;
    }
  }

  lemma FirstIsLeast(a: seq<string>, b: seq<string>)
    requires a != [] && b != [] && Ascending(Less, a) && b[0] in a
    ensures !Less(b[0], a[0])
  {
    LessIsTotal(a[0], a[0]);
    var i :| 0 <= i < |a| && a[i] == b[0];
  }

  // ---- writing and reading ----------------------------------------------------------------------------------------

  function Canonical(v: Value): Json {
    match v
    case Null => JNull
    case Bool(b) => JBool(b)
    case Num(n) => JNum(n)
    case Str(s) => JStr(s)
    case Big(i) => JObj([BIGINT], map[BIGINT := JStr(Decimal(i))])
    case Arr(items) => JArr(seq(|items|, i requires 0 <= i < |items| => Canonical(items[i])))
    case Obj(keys, fields) => JObj(Sort(Less, keys), map k | k in fields :: Canonical(fields[k]))
  }

  /** `BigInt` of what the `$bigint` key holds. */
  function AsBig(v: Value): Option<Value> {
    match v
    case Str(s) => var i := ParseBig(s); if i.None? then None else Some(Big(i.value))
    case Num(n) => Some(Big(n))
    case Bool(b) => Some(Big(if b then 1 else 0))
    case Big(i) => Some(Big(i))
    case _ => None
  }

  /** Parsing with the reviver, innermost values first; nothing when `BigInt` throws. */
  function Revive(j: Json): Option<Value> {
    match j
    case JNull => Some(Null)
    case JBool(b) => Some(Bool(b))
    case JNum(n) => Some(Num(n))
    case JStr(s) => Some(Str(s))
    case JArr(items) =>
      var revived := seq(|items|, i requires 0 <= i < |items| => Revive(items[i]));
      if exists i :: 0 <= i < |items| && revived[i].None? then None
      else Some(Arr(seq(|items|, i requires 0 <= i < |items| => revived[i].value)))
    case JObj(keys, fields) =>
      var revived := map k | k in fields :: Revive(fields[k]);
      if exists k :: k in fields && revived[k].None? then None
      else if BIGINT in fields then AsBig(revived[BIGINT].value)
      else Some(Obj(keys, map k | k in fields :: revived[k].value))
  }

  /** An object's keys are those of its fields, each once. */
  ghost predicate Proper(v: Value) {
    match v
    case Arr(items) => forall i :: 0 <= i < |items| ==> Proper(items[i])
    case Obj(keys, fields) => Distinct(keys) && (forall k :: k in keys <==> k in fields)
      && forall k :: k in fields ==> Proper(fields[k])
    case _ => true
  }

  /** No object within has a `$bigint` key. */
  ghost predicate NoBigintKey(v: Value) {
    match v
    case Arr(items) => forall i :: 0 <= i < |items| ==> NoBigintKey(items[i])
    case Obj(keys, fields) => BIGINT !in fields && forall k :: k in fields ==> NoBigintKey(fields[k])
    case _ => true
  }

  /** The same value, whatever the order of keys. */
  ghost predicate Like(v: Value, w: Value) {
    match v
    case Arr(items) => w.Arr? && |items| == |w.items| && forall i :: 0 <= i < |items| ==> Like(items[i], w.items[i])
    case Obj(_, fields) => w.Obj? && fields.Keys == w.fields.Keys
      && forall k :: k in fields ==> Like(fields[k], w.fields[k])
    case _ => v == w
  }

  ghost predicate ReadsBack(v: Value) {
    var r := Revive(Canonical(v));
    r.Some? && Like(v, r.value)
  }

  /** What is stored reads back as the same value exactly when no object within has a `$bigint` key. */
  lemma {:induction false} ReadsBackIff(v: Value)
    requires Proper(v)
    ensures ReadsBack(v) <==> NoBigintKey(v)
    decreases v
  {
    match v {
      case Big(i) => BigReadsBack(i);
      case Arr(items) =>
        forall i | 0 <= i < |items|
          ensures ReadsBack(items[i]) <==> NoBigintKey(items[i])
        {
          ReadsBackIff(items[i]);
        }
        ArrayReadsBack(items);
      case Obj(keys, fields) =>
        forall k | k in fields
          ensures ReadsBack(fields[k]) <==> NoBigintKey(fields[k])
        {
          ReadsBackIff(fields[k]);
        }
        ObjectReadsBack(keys, fields);
      case _ =>
    }
  }

  lemma BigReadsBack(i: int)
    ensures ReadsBack(Big(i))
  {
    DecimalParses(i);
    var j := Canonical(Big(i));
    assert Revive(j.fields[BIGINT]) == Some(Str(Decimal(i)));
  }

  lemma ArrayReadsBack(items: seq<Value>)
    ensures ReadsBack(Arr(items)) <==> forall i :: 0 <= i < |items| ==> ReadsBack(items[i])
  {
    var j := Canonical(Arr(items));
    assert |j.items| == |items| && forall i :: 0 <= i < |items| ==> j.items[i] == Canonical(items[i]);
    if r: Value :| Revive(j) == Some(r) {
      assert forall i :: 0 <= i < |items| ==> Revive(j.items[i]) == Some(r.items[i]);
    }
  }

  /** An object without the key revives field by field; with it, only to a big integer. */
  lemma RevivesObject(keys: seq<string>, fields: map<string, Json>)
    ensures var r := Revive(JObj(keys, fields));
            if BIGINT in fields then r.Some? ==> r.value.Big?
            else
              && (r.Some? <==> forall k :: k in fields ==> Revive(fields[k]).Some?)
              && (r.Some? ==> r.value.Obj? && r.value.fields.Keys == fields.Keys
                              && forall k :: k in fields ==> Revive(fields[k]) == Some(r.value.fields[k]))
  {
  }

  lemma ObjectReadsBack(keys: seq<string>, fields: map<string, Value>)
    ensures ReadsBack(Obj(keys, fields)) <==> BIGINT !in fields && forall k :: k in fields ==> ReadsBack(fields[k])
  {
    hide Revive;
    var j := Canonical(Obj(keys, fields));
    assert j.fields.Keys == fields.Keys && forall k :: k in fields ==> j.fields[k] == Canonical(fields[k]);
    RevivesObject(j.keys, j.fields);
  }

  // ---- what the hash of a request tells ---------------------------------------------------------------------------

  /** The order of keys does not show. */
  lemma {:induction false} LikeIsCanonical(v: Value, w: Value)
    requires Proper(v) && Proper(w) && Like(v, w)
    ensures Canonical(v) == Canonical(w)
    decreases v
  {
    match v {
      case Arr(items) =>
        forall i | 0 <= i < |items|
          ensures Canonical(items[i]) == Canonical(w.items[i])
        {
          LikeIsCanonical(items[i], w.items[i]);
        }
      case Obj(keys, fields) =>
        forall k | k in fields
          ensures Canonical(fields[k]) == Canonical(w.fields[k])
        {
          LikeIsCanonical(fields[k], w.fields[k]);
        }
        SameKeysSortAlike(keys, w.keys);
        assert Canonical(v).fields == Canonical(w).fields;
      case _ =>
    }
  }

  lemma SameKeysSortAlike(a: seq<string>, b: seq<string>)
    requires Distinct(a) && Distinct(b) && forall k :: k in a <==> k in b
    ensures Sort(Less, a) == Sort(Less, b)
  {
    hide Less;
    LessIsAnOrder();
    SortKeeps(Less, a);
    SortKeeps(Less, b);
    SortAscending(Less, a);
    SortAscending(Less, b);
    SortedAlike(Sort(Less, a), Sort(Less, b));
  }

  /** Nothing else is lost, but that an object with a `$bigint` key can pass for a big integer. */
  lemma {:induction false} CanonicalIsLike(v: Value, w: Value)
    requires NoBigintKey(v) && NoBigintKey(w) && Canonical(v) == Canonical(w)
    ensures Like(v, w)
    decreases v
  {
    match v {
      case Big(i) =>
        assert BIGINT in Canonical(w).fields;
        assert w.Big?;
        DecimalParses(i);
        DecimalParses(w.i);
        assert Canonical(v).fields[BIGINT] == Canonical(w).fields[BIGINT];
      case Arr(items) =>
        assert |Canonical(v).items| == |items| && |Canonical(w).items| == |w.items|;
        forall i | 0 <= i < |items|
          ensures Like(items[i], w.items[i])
        {
          assert Canonical(v).items[i] == Canonical(items[i]) && Canonical(w).items[i] == Canonical(w.items[i]);
          CanonicalIsLike(items[i], w.items[i]);
        }
      case Obj(keys, fields) =>
        assert Canonical(v).fields.Keys == fields.Keys && BIGINT !in Canonical(v).fields;
        assert w.Obj?;
        assert Canonical(w).fields.Keys == w.fields.Keys;
        forall k | k in fields
          ensures Like(fields[k], w.fields[k])
        {
          assert Canonical(v).fields[k] == Canonical(fields[k]) && Canonical(w).fields[k] == Canonical(w.fields[k]);
          CanonicalIsLike(fields[k], w.fields[k]);
        }
      case _ =>
    }
  }

  lemma {:induction false} LikeKeepsKeys(v: Value, w: Value)
    requires NoBigintKey(v) && Like(v, w)
    ensures NoBigintKey(w)
    decreases v
  {
    match v {
      case Arr(items) =>
        forall i | 0 <= i < |items|
          ensures NoBigintKey(w.items[i])
        {
          LikeKeepsKeys(items[i], w.items[i]);
        }
      case Obj(keys, fields) =>
        forall k | k in w.fields
          ensures NoBigintKey(w.fields[k])
        {
          LikeKeepsKeys(fields[k], w.fields[k]);
        }
      case _ =>
    }
  }

  /** Of what shares the canonical JSON of a value without the key, exactly what has the key is another value. */
  lemma BigintKeysCollide(v: Value, w: Value)
    requires NoBigintKey(v) && Canonical(v) == Canonical(w)
    ensures Like(v, w) <==> NoBigintKey(w)
  {
    if NoBigintKey(w) {
      CanonicalIsLike(v, w);
    } else if Like(v, w) {
      LikeKeepsKeys(v, w);
    }
  }

  /** As this one does. */
  lemma BigintKeyPasses(i: int)
    ensures var o := Obj([BIGINT], map[BIGINT := Str(Decimal(i))]);
            Proper(o) && Canonical(o) == Canonical(Big(i)) && !Like(o, Big(i))
  {
    var o := Obj([BIGINT], map[BIGINT := Str(Decimal(i))]);
    assert Sort(Less, [BIGINT]) == [BIGINT];
    assert Canonical(o).fields == map[BIGINT := JStr(Decimal(i))];
  }

  lemma RevivesAlone(keys: seq<string>, inner: Json)
    ensures Revive(JObj(keys, map[BIGINT := inner]))
         == if Revive(inner).None? then None else AsBig(Revive(inner).value)
  {
    assert map[BIGINT := inner][BIGINT] == inner;
  }

  lemma PlainRevives(v: Value)
    requires !v.Arr? && !v.Obj?
    ensures Revive(Canonical(v)) == Some(v)
  {
    if v.Big? {
      RevivesAlone([BIGINT], JStr(Decimal(v.i)));
      DecimalParses(v.i);
    }
  }

  /** What an object with that key alone reads back as: a big integer, of a number or boolean too; of null, nothing. */
  lemma BigintKeyReadsAs(v: Value)
    ensures var r := Revive(Canonical(Obj([BIGINT], map[BIGINT := v])));
            match v
            case Null => r == None
            case Bool(b) => r == Some(Big(if b then 1 else 0))
            case Num(n) => r == Some(Big(n))
            case Big(i) => r == Some(Big(i))
            case Str(s) => r.Some? <==> exists i :: r == Some(Big(i)) && ParseBig(s) == Some(i)
            case _ => true
  {
    hide Revive, Sort;
    var j := Canonical(Obj([BIGINT], map[BIGINT := v]));
    assert j.fields == map[BIGINT := Canonical(v)];
    RevivesAlone(j.keys, Canonical(v));
    if !v.Arr? && !v.Obj? { PlainRevives(v); }
  }
}
