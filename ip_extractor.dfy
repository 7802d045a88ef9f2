/**
 * The IP extractor: a recursive walk over a parsed JSON document that adds
 * every string value parsing as an IP address to one shared set.
 *
 * The address parser is the parameter `isIp`, so no property of it is
 * assumed. Reading the file and parsing its text into a document are not
 * part of this model; the walk starts from the parsed root.
 */
module IpExtractor {

  /** A parsed JSON value, one alternative per value kind the walk tells apart. */
  datatype Json =
    | JString(text: string)
    | JNumber(literal: string)
    | JTrue
    | JFalse
    | JNull
    | JObject(properties: seq<Property>)
    | JArray(items: seq<Json>)

  /** One property of an object; the walk looks at its value only. */
  datatype Property = Property(name: string, value: Json)

  /** The number of children the walk visits: the property values of an object, the items of an array. */
  function ChildCount(e: Json): nat
  {
    match e
    case JObject(properties) => |properties|
    case JArray(items) => |items|
    case _ => 0
  }

  /**
   * `s` is a string value somewhere in `e`: the document itself, an item of
   * an array or the value of a property, at any depth. Property names are
   * not values.
   */
  ghost predicate Occurs(s: string, e: Json)
  {
    match e
    case JString(text) => text == s
    case JObject(properties) => exists i :: 0 <= i < |properties| && Occurs(s, properties[i].value)
    case JArray(items) => exists i :: 0 <= i < |items| && Occurs(s, items[i])
    case _ => false
  }

  /** The addresses the walk collects from `e`: its string values that satisfy `isIp`. */
  function Collected(e: Json, isIp: string -> bool): (r: set<string>)
    ensures forall x :: x in r ==> isIp(x)
    decreases e, 1, 0
  {
    match e
    case JString(text) => if isIp(text) then {text} else {}
    case JObject(_) => CollectedChildren(e, ChildCount(e), isIp)
    case JArray(_) => CollectedChildren(e, ChildCount(e), isIp)
    case _ => {}
  }

  /** The addresses collected from the first `n` children of `e`. */
  function CollectedChildren(e: Json, n: nat, isIp: string -> bool): (r: set<string>)
    requires n <= ChildCount(e)
    ensures forall x :: x in r ==> isIp(x)
    decreases e, 0, n
  {
    if n == 0 then {}
    else
      CollectedChildren(e, n - 1, isIp) +
      match e
      case JObject(properties) => Collected(properties[n - 1].value, isIp)
      case JArray(items) => Collected(items[n - 1], isIp)
      case _ => {}
  }

  /**
   * What the walk collects is exactly the set of string values occurring in
   * the document that satisfy `isIp`.
   */
  lemma {:induction false} CollectedMeansOccurring(e: Json, isIp: string -> bool, x: string)
    ensures x in Collected(e, isIp) <==> Occurs(x, e) && isIp(x)
    decreases e, 1, 0
  {
    match e
    case JObject(_) => CollectedChildrenMeansOccurring(e, ChildCount(e), isIp, x);
    case JArray(_) => CollectedChildrenMeansOccurring(e, ChildCount(e), isIp, x);
    case _ =>
  }

  /** Every one of the first `n` children is visited, and nothing else is. */
  lemma {:induction false} CollectedChildrenMeansOccurring(e: Json, n: nat, isIp: string -> bool, x: string)
    requires n <= ChildCount(e)
    ensures x in CollectedChildren(e, n, isIp) <==>
              isIp(x) &&
              match e
              case JObject(properties) => exists i :: 0 <= i < n && Occurs(x, properties[i].value)
              case JArray(items) => exists i :: 0 <= i < n && Occurs(x, items[i])
              case _ => false
    decreases e, 0, n
  {
    if n > 0 {
      CollectedChildrenMeansOccurring(e, n - 1, isIp, x);
      match e
      case JObject(properties) =>
        CollectedMeansOccurring(properties[n - 1].value, isIp, x);
      case JArray(items) =>
        CollectedMeansOccurring(items[n - 1], isIp, x);
    }
  }

  /** Numbers, booleans and null contribute nothing. */
  lemma ScalarsContributeNothing(e: Json, isIp: string -> bool)
    requires e.JNumber? || e.JTrue? || e.JFalse? || e.JNull?
    ensures Collected(e, isIp) == {}
  {
  }

  /**
   * Property names are never examined: objects whose properties have the
   * same values in the same order yield the same addresses, whatever the
   * names.
   */
  lemma NamesIgnored(properties: seq<Property>, renamed: seq<Property>, isIp: string -> bool)
    requires |properties| == |renamed|
    requires forall i :: 0 <= i < |properties| ==> properties[i].value == renamed[i].value
    ensures Collected(JObject(properties), isIp) == Collected(JObject(renamed), isIp)
  {
    forall x ensures x in Collected(JObject(properties), isIp) <==> x in Collected(JObject(renamed), isIp) {
      CollectedMeansOccurring(JObject(properties), isIp, x);
      CollectedMeansOccurring(JObject(renamed), isIp, x);
    }
  }

  /** A set of strings updated in place: the hash set the walk fills. */
  class IpSet {
    var items: set<string>

    constructor ()
      ensures items == {}
    {
      items := {};
    }

    method Add(s: string)
      modifies this
      ensures items == old(items) + {s}
    {
      items := items + {s};
    }
  }

  /**
   * Visits `element`: a string value that satisfies `isIp` is added to
   * `ipAddresses`; the value of every property of an object and every item
   * of an array is visited in turn; other values are skipped.
   */
  method ExtractIpsRecursive(element: Json, isIp: string -> bool, ipAddresses: IpSet)
    modifies ipAddresses
    ensures ipAddresses.items == old(ipAddresses.items) + Collected(element, isIp)
    decreases element
  {
    match element
    case JString(value) =>
      if isIp(value) {
        ipAddresses.Add(value);
      }
    case JObject(properties) =>
      for i := 0 to |properties|
        invariant ipAddresses.items == old(ipAddresses.items) + CollectedChildren(element, i, isIp)
      {
        ExtractIpsRecursive(properties[i].value, isIp, ipAddresses);
      }
    case JArray(items) =>
      for i := 0 to |items|
        invariant ipAddresses.items == old(ipAddresses.items) + CollectedChildren(element, i, isIp)
      {
        ExtractIpsRecursive(items[i], isIp, ipAddresses);
      }
    case _ =>
  }

  /**
   * Walks the document from its root into a fresh set and returns the
   * members that satisfy `isIp`. That last filter keeps every member, so
   * the result is the collected set itself: the IP-valued strings of the
   * document, each once.
   */
  method ExtractIpAddresses(root: Json, isIp: string -> bool) returns (addresses: set<string>)
    ensures addresses == Collected(root, isIp)
    ensures forall x :: x in addresses <==> Occurs(x, root) && isIp(x)
  {
    var ipAddresses := new IpSet();
    ExtractIpsRecursive(root, isIp, ipAddresses);
    addresses := set ip | ip in ipAddresses.items && isIp(ip);
    forall x ensures x in addresses <==> Occurs(x, root) && isIp(x) {
      CollectedMeansOccurring(root, isIp, x);
    }
  }
}
