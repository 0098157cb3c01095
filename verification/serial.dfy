/**
 * A concrete parser and printer that meet everything the model assumes of
 * JSON.parse and JSON.stringify (Json.ValidCodec). It is not the JSON grammar:
 * each value is written as a tag character followed by length-prefixed parts,
 * which is enough to show that the assumptions can all hold at once.
 */
module Serial {
  import opened Wrappers
  import opened Json

  // ---------------------------------------------------------------------------
  // Printing
  // ---------------------------------------------------------------------------

  /** A count in unary: `n` ones, then a zero. */
  function NatText(n: nat): string {
    if n == 0 then "0" else "1" + NatText(n - 1)
  }

  function IntText(i: int): string {
    if i < 0 then "-" + NatText(-i) else "+" + NatText(i)
  }

  /** A string prefixed by its length. */
  function StrText(s: string): string {
    NatText(|s|) + s
  }

  function Print(v: Json): string
    decreases v, 1
  {
    match v
    case JNull => "n"
    case JBool(b) => if b then "t" else "f"
    case JNumber(d) => "d" + IntText(d.mantissa) + IntText(d.exponent)
    case JString(s) => "s" + StrText(s)
    case JArray(items) => "a" + NatText(|items|) + PrintItems(items)
    case JObject(ms) => "o" + NatText(|ms|) + PrintMembers(ms, 0)
  }

  function PrintItems(items: seq<Json>): string
    decreases items, 0
  {
    if items == [] then "" else Print(items[0]) + PrintItems(items[1..])
  }

  /** The members from position `i` on, each as its key followed by its value. */
  function PrintMembers(ms: seq<(string, Json)>, i: nat): string
    requires i <= |ms|
    decreases JObject(ms), 0, |ms| - i
  {
    if i == |ms| then "" else StrText(ms[i].0) + Print(ms[i].1) + PrintMembers(ms, i + 1)
  }

  // ---------------------------------------------------------------------------
  // Reading back: each reader returns what it read and the text after it
  // ---------------------------------------------------------------------------

  function ReadNat(s: string): (r: Option<(nat, string)>)
    ensures r.Some? ==> |r.value.1| < |s|
  {
    if s == [] then None
    else if s[0] == '0' then Some((0, s[1..]))
    else if s[0] == '1' then
      match ReadNat(s[1..])
      case None => None
      case Some((n, rest)) => Some((n + 1, rest))
    else None
  }

  function ReadInt(s: string): (r: Option<(int, string)>)
    ensures r.Some? ==> |r.value.1| < |s|
  {
    if s == [] || (s[0] != '-' && s[0] != '+') then None
    else
      match ReadNat(s[1..])
      case None => None
      case Some((n, rest)) =>
        var i: int := if s[0] == '-' then -(n as int) else n;
        Some((i, rest))
  }

  function ReadStr(s: string): (r: Option<(string, string)>)
    ensures r.Some? ==> |r.value.1| < |s|
  {
    match ReadNat(s)
    case None => None
    case Some((n, rest)) => if n <= |rest| then Some((rest[..n], rest[n..])) else None
  }

  function ReadNumber(s: string): (r: Option<(Json, string)>)
    ensures r.Some? ==> |r.value.1| < |s|
  {
    match ReadInt(s)
    case None => None
    case Some((m, rest)) =>
      match ReadInt(rest)
      case None => None
      case Some((e, rest')) =>
        var d := Decimal(m, e);
        if IsCanonical(d) then Some((JNumber(d), rest')) else None
  }

  function Read(s: string): (r: Option<(Json, string)>)
    ensures r.Some? ==> |r.value.1| < |s|
    decreases |s|, 0
  {
    if s == [] then None else ReadTagged(s[0], s[1..])
  }

  /** What follows the tag character `tag`. */
  function ReadTagged(tag: char, s: string): (r: Option<(Json, string)>)
    ensures r.Some? ==> |r.value.1| <= |s|
    decreases |s|, 2
  {
    match tag
    case 'n' => Some((JNull, s))
    case 't' => Some((JBool(true), s))
    case 'f' => Some((JBool(false), s))
    case 'd' => ReadNumber(s)
    case 's' =>
      (match ReadStr(s)
       case None => None
       case Some((t, rest)) => Some((JString(t), rest)))
    case 'a' =>
      (match ReadNat(s)
       case None => None
       case Some((n, rest)) =>
         match ReadItems(rest, n)
         case None => None
         case Some((items, rest')) => Some((JArray(items), rest')))
    case 'o' =>
      (match ReadNat(s)
       case None => None
       case Some((n, rest)) =>
         match ReadMembers(rest, n)
         case None => None
         case Some((ms, rest')) => Some((JObject(ms), rest')))
    case _ => None
  }

  function ReadItems(s: string, n: nat): (r: Option<(seq<Json>, string)>)
    ensures r.Some? ==> |r.value.1| <= |s|
    decreases |s|, 1, n
  {
    if n == 0 then Some(([], s))
    else
      match Read(s)
      case None => None
      case Some((v, rest)) =>
        match ReadItems(rest, n - 1)
        case None => None
        case Some((vs, rest')) => Some(([v] + vs, rest'))
  }

  function ReadMembers(s: string, n: nat): (r: Option<(seq<(string, Json)>, string)>)
    ensures r.Some? ==> |r.value.1| <= |s|
    decreases |s|, 1, n
  {
    if n == 0 then Some(([], s))
    else
      match ReadStr(s)
      case None => None
      case Some((k, rest)) =>
        match Read(rest)
        case None => None
        case Some((v, rest')) =>
          match ReadMembers(rest', n - 1)
          case None => None
          case Some((ms, rest'')) => Some(([(k, v)] + ms, rest''))
  }

  /** The whole text must be one value, and a well-formed one. */
  function Parse(s: string): (r: Option<Json>)
    ensures r.Some? ==> Wf(r.value)
  {
    match Read(s)
    case Some((v, rest)) => if rest == [] && Wf(v) then Some(v) else None
    case None => None
  }

  // ---------------------------------------------------------------------------
  // Round trips
  // ---------------------------------------------------------------------------

  lemma {:induction false} ReadNatText(n: nat, rest: string)
    ensures ReadNat(NatText(n) + rest) == Some((n, rest))
  {
    if n > 0 {
      ReadNatText(n - 1, rest);
      assert ("1" + NatText(n - 1) + rest)[1..] == NatText(n - 1) + rest;
    }
  }

  lemma ReadIntText(i: int, rest: string)
    ensures ReadInt(IntText(i) + rest) == Some((i, rest))
  {
    var sign := if i < 0 then "-" else "+";
    var n: nat := if i < 0 then -i else i;
    ReadNatText(n, rest);
    assert (sign + NatText(n) + rest)[1..] == NatText(n) + rest;
  }

  lemma ReadStrText(s: string, rest: string)
    ensures ReadStr(StrText(s) + rest) == Some((s, rest))
  {
    ReadNatText(|s|, s + rest);
    assert StrText(s) + rest == NatText(|s|) + (s + rest);
    assert (s + rest)[..|s|] == s && (s + rest)[|s|..] == rest;
  }

  lemma ReadNumberText(d: Number, rest: string)
    ensures ReadNumber(IntText(d.mantissa) + (IntText(d.exponent) + rest)) == Some((JNumber(d), rest))
  {
    ReadIntText(d.mantissa, IntText(d.exponent) + rest);
    ReadIntText(d.exponent, rest);
  }

  /** Reading a printed value gives the value back and stops where the printing ended. */
  lemma {:induction false} ReadPrint(v: Json, rest: string)
    ensures Read(Print(v) + rest) == Some((v, rest))
    decreases v, 1
  {
    match v
    case JNull =>
      ReadSplitsTag(Print(v) + rest, 'n', rest);
    case JBool(b) =>
      ReadSplitsTag(Print(v) + rest, if b then 't' else 'f', rest);
    case JNumber(d) =>
      ReadPrintNumber(d, rest);
    case JString(s) =>
      ReadPrintString(s, rest);
    case JArray(items) =>
      ReadPrintItems(items, rest);
      ReadPrintArray(items, rest);
    case JObject(ms) =>
      ReadPrintMembers(ms, 0, rest);
      assert ms[0..] == ms;
      ReadPrintObject(ms, rest);
  }

  lemma ReadPrintNumber(d: Number, rest: string)
    ensures Read(Print(JNumber(d)) + rest) == Some((JNumber(d), rest))
  {
    var m, e := IntText(d.mantissa), IntText(d.exponent);
    assert Print(JNumber(d)) == ['d'] + m + e;
    Regroup(['d'], m, e, rest);
    ReadSplitsTag(Print(JNumber(d)) + rest, 'd', m + (e + rest));
    ReadNumberText(d, rest);
  }

  lemma ReadPrintString(s: string, rest: string)
    ensures Read(Print(JString(s)) + rest) == Some((JString(s), rest))
  {
    assert Print(JString(s)) + rest == ['s'] + (StrText(s) + rest);
    ReadSplitsTag(Print(JString(s)) + rest, 's', StrText(s) + rest);
    ReadStrText(s, rest);
  }

  lemma ReadPrintArray(items: seq<Json>, rest: string)
    requires ReadItems(PrintItems(items) + rest, |items|) == Some((items, rest))
    ensures Read(Print(JArray(items)) + rest) == Some((JArray(items), rest))
  {
    var n, p := NatText(|items|), PrintItems(items);
    assert Print(JArray(items)) == ['a'] + n + p;
    Regroup(['a'], n, p, rest);
    ReadSplitsTag(Print(JArray(items)) + rest, 'a', n + (p + rest));
    ReadNatText(|items|, p + rest);
  }

  lemma ReadPrintObject(ms: seq<(string, Json)>, rest: string)
    requires ReadMembers(PrintMembers(ms, 0) + rest, |ms|) == Some((ms, rest))
    ensures Read(Print(JObject(ms)) + rest) == Some((JObject(ms), rest))
  {
    var n, p := NatText(|ms|), PrintMembers(ms, 0);
    assert Print(JObject(ms)) == ['o'] + n + p;
    Regroup(['o'], n, p, rest);
    ReadSplitsTag(Print(JObject(ms)) + rest, 'o', n + (p + rest));
    ReadNatText(|ms|, p + rest);
  }

  lemma SliceCons<T>(s: seq<T>, i: nat)
    requires i < |s|
    ensures s[i..] == [s[i]] + s[i + 1..]
  {
  }

  lemma Regroup(a: string, b: string, c: string, d: string)
    ensures a + b + c + d == a + (b + (c + d))
  {
  }

  lemma ReadSplitsTag(s: string, tag: char, body: string)
    requires s == [tag] + body
    ensures Read(s) == ReadTagged(tag, body)
  {
  }

  lemma ReadItemsStep(s: string, n: nat, v: Json, rest: string, vs: seq<Json>, rest': string)
    requires n > 0 && Read(s) == Some((v, rest)) && ReadItems(rest, n - 1) == Some((vs, rest'))
    ensures ReadItems(s, n) == Some(([v] + vs, rest'))
  {
  }

  lemma {:induction false} ReadPrintItems(items: seq<Json>, rest: string)
    ensures ReadItems(PrintItems(items) + rest, |items|) == Some((items, rest))
    decreases items, 0
  {
    if items != [] {
      var tail := PrintItems(items[1..]) + rest;
      ReadPrint(items[0], tail);
      ReadPrintItems(items[1..], rest);
      assert PrintItems(items) + rest == Print(items[0]) + tail;
      ReadItemsStep(PrintItems(items) + rest, |items|, items[0], tail, items[1..], rest);
      assert [items[0]] + items[1..] == items;
    } else {
      assert PrintItems(items) + rest == rest;
    }
  }

  lemma {:induction false} ReadPrintMembers(ms: seq<(string, Json)>, i: nat, rest: string)
    requires i <= |ms|
    ensures ReadMembers(PrintMembers(ms, i) + rest, |ms| - i) == Some((ms[i..], rest))
    decreases JObject(ms), 0, |ms| - i
  {
    if i < |ms| {
      ReadPrint(ms[i].1, PrintMembers(ms, i + 1) + rest);
      ReadPrintMembers(ms, i + 1, rest);
      ReadMembersStep(ms, i, rest);
    } else {
      assert PrintMembers(ms, i) + rest == rest;
      assert ms[i..] == [];
    }
  }

  lemma ReadMembersStep(ms: seq<(string, Json)>, i: nat, rest: string)
    requires i < |ms|
    requires Read(Print(ms[i].1) + (PrintMembers(ms, i + 1) + rest)) == Some((ms[i].1, PrintMembers(ms, i + 1) + rest))
    requires ReadMembers(PrintMembers(ms, i + 1) + rest, |ms| - i - 1) == Some((ms[i + 1..], rest))
    ensures ReadMembers(PrintMembers(ms, i) + rest, |ms| - i) == Some((ms[i..], rest))
  {
    var m := ms[i];
    var p := PrintMembers(ms, i + 1);
    assert PrintMembers(ms, i) == StrText(m.0) + Print(m.1) + p;
    ReadMemberThen(m.0, m.1, p + rest, |ms| - i - 1, ms[i + 1..], rest);
    SliceCons(ms, i);
    Regroup(StrText(m.0), Print(m.1), p, rest);
  }

  /** One member read back, then the members after it. */
  lemma ReadMemberThen(k: string, v: Json, tail: string, n: nat, more: seq<(string, Json)>, rest: string)
    requires Read(Print(v) + tail) == Some((v, tail))
    requires ReadMembers(tail, n) == Some((more, rest))
    ensures ReadMembers(StrText(k) + (Print(v) + tail), n + 1) == Some(([(k, v)] + more, rest))
  {
    ReadStrText(k, Print(v) + tail);
  }

  /** The codec this module builds. */
  function SerialCodec(): Codec {
    Codec(Parse, Print)
  }

  /** Every assumption the model makes of the parser and printer is met by this codec. */
  lemma ValidCodecIsMet()
    ensures ValidCodec(SerialCodec())
  {
    forall v | Wf(v) ensures Parse(Print(v)) == Some(v) {
      ReadPrint(v, []);
      assert Print(v) + [] == Print(v);
      assert Read(Print(v)) == Some((v, []));
    }
  }
}
