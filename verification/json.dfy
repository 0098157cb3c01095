/**
 * JSON values (section 3 of RFC 8259) as the editor holds them, insertion-ordered
 * object members, path walking with array indices written as decimal text, and
 * the abstract parser and 2-space pretty-printer.
 */
module Json {
  import opened Wrappers
  import opened Text

  /** A decimal `mantissa * 10^exponent`; every finite double has this form. */
  datatype Decimal = Decimal(mantissa: int, exponent: int)

  /** One spelling per number: no trailing zero in the mantissa, and zero is `0e0`. */
  predicate IsCanonical(d: Decimal) {
    if d.mantissa == 0 then d.exponent == 0 else d.mantissa % 10 != 0
  }

  /** A finite JSON number, as a value rather than as one of its spellings. */
  type Number = d: Decimal | IsCanonical(d) witness Decimal(0, 0)

  /** A JSON value. Object members keep insertion order; numbers are finite. */
  datatype Json =
    | JNull
    | JBool(b: bool)
    | JNumber(n: Number)
    | JString(s: string)
    | JArray(items: seq<Json>)
    | JObject(members: seq<(string, Json)>)

  /** The six type names the visual editor offers. */
  datatype ValueType = StringType | NumberType | BooleanType | ObjectType | ArrayType | NullType

  /** Classify a value, testing null, then array, then object, then boolean, then number. */
  function GetValueType(v: Json): ValueType {
    if v.JNull? then NullType
    else if v.JArray? then ArrayType
    else if v.JObject? then ObjectType
    else if v.JBool? then BooleanType
    else if v.JNumber? then NumberType
    else StringType
  }

  /** Each value falls under exactly one of the six types, the one its shape names. */
  lemma ValueTypeMatchesShape(v: Json)
    ensures GetValueType(v) == NullType <==> v.JNull?
    ensures GetValueType(v) == ArrayType <==> v.JArray?
    ensures GetValueType(v) == ObjectType <==> v.JObject?
    ensures GetValueType(v) == BooleanType <==> v.JBool?
    ensures GetValueType(v) == NumberType <==> v.JNumber?
    ensures GetValueType(v) == StringType <==> v.JString?
  {
  }

  // ---------------------------------------------------------------------------
  // Object members as an insertion-ordered association list
  // ---------------------------------------------------------------------------

  type Members = seq<(string, Json)>

  /** Own-property read: the value stored under `k`. */
  function Lookup(ms: Members, k: string): Option<Json>
    decreases |ms|
  {
    if ms == [] then None
    else if ms[0].0 == k then Some(ms[0].1)
    else Lookup(ms[1..], k)
  }

  predicate HasKey(ms: Members, k: string) {
    Lookup(ms, k).Some?
  }

  /** The keys in insertion order (Object.keys). */
  function Keys(ms: Members): (ks: seq<string>)
    ensures |ks| == |ms|
    ensures forall i :: 0 <= i < |ms| ==> ks[i] == ms[i].0
  {
    seq(|ms|, i requires 0 <= i < |ms| => ms[i].0)
  }

  /** No key occurs twice, as in every JavaScript object. */
  predicate UniqueKeys(ms: Members)
    decreases |ms|
  {
    ms == [] || (!HasKey(ms[1..], ms[0].0) && UniqueKeys(ms[1..]))
  }

  /** A key is present exactly when some member carries it. */
  lemma {:induction false} HasKeyIff(ms: Members, k: string)
    ensures HasKey(ms, k) <==> exists i :: 0 <= i < |ms| && ms[i].0 == k
    decreases |ms|
  {
    if ms != [] {
      HasKeyIff(ms[1..], k);
      if HasKey(ms[1..], k) {
        var i :| 0 <= i < |ms[1..]| && ms[1..][i].0 == k;
        assert ms[i + 1].0 == k;
      }
      if exists i :: 0 <= i < |ms| && ms[i].0 == k {
        var i :| 0 <= i < |ms| && ms[i].0 == k;
        if i > 0 { assert ms[1..][i - 1].0 == k; }
      }
    }
  }

  /** Property assignment `o[k] = v`: overwrite in place, or append a new member last. */
  function Put(ms: Members, k: string, v: Json): (r: Members)
    ensures Lookup(r, k) == Some(v)
    ensures forall k' :: k' != k ==> Lookup(r, k') == Lookup(ms, k')
    ensures HasKey(ms, k) ==> Keys(r) == Keys(ms)
    ensures !HasKey(ms, k) ==> r == ms + [(k, v)]
    ensures forall i :: 0 <= i < |r| ==> r[i] == (k, v) || r[i] in ms
    ensures UniqueKeys(ms) ==> UniqueKeys(r)
    decreases |ms|
  {
    if ms == [] then [(k, v)]
    else if ms[0].0 == k then [(k, v)] + ms[1..]
    else
      var r := [ms[0]] + Put(ms[1..], k, v);
      assert r[1..] == Put(ms[1..], k, v);
      r
  }

  /** `delete o[k]`: drop the member named `k`; nothing happens when there is none. */
  function Remove(ms: Members, k: string): (r: Members)
    ensures Lookup(r, k) == None
    ensures forall k' :: k' != k ==> Lookup(r, k') == Lookup(ms, k')
    ensures !HasKey(ms, k) ==> r == ms
    ensures forall i :: 0 <= i < |r| ==> r[i] in ms
    ensures UniqueKeys(ms) ==> UniqueKeys(r) && |r| == (if HasKey(ms, k) then |ms| - 1 else |ms|)
    decreases |ms|
  {
    if ms == [] then []
    else if ms[0].0 == k then Remove(ms[1..], k)
    else
      var r := [ms[0]] + Remove(ms[1..], k);
      assert r[1..] == Remove(ms[1..], k);
      r
  }

  /** The position of the first member named `k`. */
  function KeyIndex(ms: Members, k: string): (p: nat)
    requires HasKey(ms, k)
    ensures p < |ms| && ms[p].0 == k && Lookup(ms, k) == Some(ms[p].1)
    ensures forall i :: 0 <= i < p ==> ms[i].0 != k
    decreases |ms|
  {
    if ms[0].0 == k then 0 else 1 + KeyIndex(ms[1..], k)
  }

  /**
   * With distinct keys, removing a present key cuts out exactly the one member
   * that carries it and keeps every other member in its place and order.
   */
  lemma {:induction false} RemoveSplices(ms: Members, k: string)
    requires UniqueKeys(ms) && HasKey(ms, k)
    ensures Remove(ms, k) == ms[..KeyIndex(ms, k)] + ms[KeyIndex(ms, k) + 1..]
    decreases |ms|
  {
    if ms[0].0 == k {
      RemoveHead(ms);
    } else {
      var p := KeyIndex(ms[1..], k);
      RemoveSplices(ms[1..], k);
      assert Remove(ms, k) == [ms[0]] + Remove(ms[1..], k);
      SpliceCons(ms, p);
    }
  }

  /** With distinct keys, removing the first member's key drops just that member. */
  lemma RemoveHead(ms: Members)
    requires ms != [] && UniqueKeys(ms)
    ensures Remove(ms, ms[0].0) == ms[..0] + ms[1..]
  {
    assert ms[..0] + ms[1..] == ms[1..];
  }

  /** Cutting position `p + 1` out of `ms` is its head followed by the tail with position `p` cut. */
  lemma SpliceCons(ms: Members, p: nat)
    requires p + 1 < |ms|
    ensures [ms[0]] + (ms[1..][..p] + ms[1..][p + 1..]) == ms[..p + 1] + ms[p + 2..]
  {
    assert [ms[0]] + ms[1..][..p] == ms[..p + 1];
    assert ms[1..][p + 1..] == ms[p + 2..];
  }

  // ---------------------------------------------------------------------------
  // Well-formed values
  // ---------------------------------------------------------------------------

  /** Every object in the value has distinct keys. */
  predicate Wf(v: Json) {
    match v
    case JArray(items) => forall i :: 0 <= i < |items| ==> Wf(items[i])
    case JObject(ms) => UniqueKeys(ms) && forall i :: 0 <= i < |ms| ==> Wf(ms[i].1)
    case _ => true
  }

  lemma {:induction false} LookupWf(ms: Members, k: string)
    requires Wf(JObject(ms)) && Lookup(ms, k).Some?
    ensures Wf(Lookup(ms, k).value)
    decreases |ms|
  {
    if ms[0].0 != k {
      assert Wf(JObject(ms[1..])) by {
        assert forall i :: 0 <= i < |ms[1..]| ==> ms[1..][i] == ms[i + 1];
      }
      LookupWf(ms[1..], k);
    }
  }

  lemma PutWf(ms: Members, k: string, v: Json)
    requires Wf(JObject(ms)) && Wf(v)
    ensures Wf(JObject(Put(ms, k, v)))
  {
    var r := Put(ms, k, v);
    forall i | 0 <= i < |r| ensures Wf(r[i].1) {
      if r[i] != (k, v) {
        var j :| 0 <= j < |ms| && ms[j] == r[i];
      }
    }
  }

  lemma RemoveWf(ms: Members, k: string)
    requires Wf(JObject(ms))
    ensures Wf(JObject(Remove(ms, k)))
  {
    var r := Remove(ms, k);
    forall i | 0 <= i < |r| ensures Wf(r[i].1) {
      var j :| 0 <= j < |ms| && ms[j] == r[i];
    }
  }

  // ---------------------------------------------------------------------------
  // Array indices written as text
  // ---------------------------------------------------------------------------

  /** One more than the largest array index JavaScript allows. */
  const MaxArrayLength: nat := 0x1_0000_0000 - 1

  /** The array index a property name denotes: canonical decimal text below 2^32 - 1. */
  function ArrayIndex(key: string): (r: Option<nat>)
    ensures r.Some? ==> r.value < MaxArrayLength && NatToString(r.value) == key
  {
    if IsCanonicalDecimal(key) && DigitsValue(key) < MaxArrayLength then
      NatToStringOfDigitsValue(key);
      Some(DigitsValue(key))
    else None
  }

  /** An index written with `index.toString()` is read back as the same index. */
  lemma ArrayIndexOfText(n: nat)
    requires n < MaxArrayLength
    ensures ArrayIndex(NatToString(n)) == Some(n)
  {
    DigitsValueOfNatToString(n);
  }

  // ---------------------------------------------------------------------------
  // Paths
  // ---------------------------------------------------------------------------

  /** Object keys, or array indices as decimal text, from the root down. */
  type Path = seq<string>

  /** The path segment the array renderer uses for element `i`. */
  function IndexSegment(i: nat): string {
    NatToString(i)
  }

  /** One step down: an own member of an object, or an element of an array. */
  function Child(v: Json, key: string): Option<Json> {
    match v
    case JObject(ms) => Lookup(ms, key)
    case JArray(items) =>
      (match ArrayIndex(key)
       case Some(i) => if i < |items| then Some(items[i]) else None
       case None => None)
    case _ => None
  }

  /** Replace an existing child; `Child(v, key)` must be defined. */
  function SetChild(v: Json, key: string, c: Json): (r: Json)
    requires Child(v, key).Some?
    ensures Child(r, key) == Some(c)
    ensures forall k :: k != key ==> Child(r, k) == Child(v, k)
  {
    if v.JObject? then JObject(Put(v.members, key, c))
    else
      var i := ArrayIndex(key).value;
      var r := JArray(v.items[i := c]);
      assert forall k :: k != key && ArrayIndex(k).Some? ==> ArrayIndex(k).value != i;
      r
  }

  /** The node a path leads to, if every step exists. */
  function Walk(v: Json, path: Path): Option<Json>
    decreases |path|
  {
    if path == [] then Some(v)
    else
      match Child(v, path[0])
      case None => None
      case Some(c) => Walk(c, path[1..])
  }

  lemma ChildWf(v: Json, key: string)
    requires Wf(v) && Child(v, key).Some?
    ensures Wf(Child(v, key).value)
  {
    if v.JObject? {
      LookupWf(v.members, key);
    }
  }

  lemma SetChildWf(v: Json, key: string, c: Json)
    requires Wf(v) && Wf(c) && Child(v, key).Some?
    ensures Wf(SetChild(v, key, c))
  {
    if v.JObject? {
      PutWf(v.members, key, c);
    } else {
      var i := ArrayIndex(key).value;
      assert SetChild(v, key, c).items == v.items[i := c];
    }
  }

  // ---------------------------------------------------------------------------
  // Parsing and pretty-printing
  // ---------------------------------------------------------------------------

  /**
   * JSON.parse (None when it throws) and JSON.stringify(v, null, 2), supplied
   * from outside: the model does not define the JSON grammar.
   */
  datatype Codec = Codec(parse: string -> Option<Json>, pretty: Json -> string)

  /** What the model assumes of the parser and printer. */
  ghost predicate ValidCodec(c: Codec) {
    && (forall s :: c.parse(s).Some? ==> Wf(c.parse(s).value))
    && (forall v :: Wf(v) ==> c.parse(c.pretty(v)) == Some(v))
  }

  /** The editor's validity test: the text parses. */
  predicate IsValidJson(c: Codec, text: string) {
    c.parse(text).Some?
  }

  /** Re-serialising a parsed text gives text that parses to the same value. */
  lemma PrettyOfParsedIsValid(c: Codec, text: string)
    requires ValidCodec(c) && IsValidJson(c, text)
    ensures c.parse(c.pretty(c.parse(text).value)) == c.parse(text)
  {
  }

  /** Formatting is idempotent: formatting formatted text gives the same text. */
  lemma FormatIdempotent(c: Codec, text: string)
    requires ValidCodec(c) && IsValidJson(c, text)
    ensures var once := c.pretty(c.parse(text).value);
            c.pretty(c.parse(once).value) == once
  {
  }
}
