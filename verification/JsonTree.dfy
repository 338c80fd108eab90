/** The value a cJSON tree stands for. The two list types are the child->next chains of an array
    and of an object. A number is the exact value of valuedouble. */
module JsonTree {
  import opened Bytes
  import opened NumberCodec

  datatype Json =
    | Null
    | False
    | True
    | Number(num: real)
    | Str(text: bytes)
    | Array(items: Items)
    | Object(members: Members)

  datatype Items = NoItems | Item(head: Json, tail: Items)

  datatype Members = NoMembers | Member(key: bytes, value: Json, rest: Members)

  /** How deeply arrays and objects are nested in `v`. */
  function Nesting(v: Json): nat {
    match v
    case Array(items) => 1 + ItemsNesting(items)
    case Object(members) => 1 + MembersNesting(members)
    case _ => 0
  }

  function Max(a: nat, b: nat): nat { if a < b then b else a }

  function ItemsNesting(items: Items): nat {
    match items
    case NoItems => 0
    case Item(head, tail) => Max(Nesting(head), ItemsNesting(tail))
  }

  function MembersNesting(members: Members): nat {
    match members
    case NoMembers => 0
    case Member(_, value, rest) => Max(Nesting(value), MembersNesting(rest))
  }

  predicate IsPlain(x: real) {
    x == x.Floor as real && IsPlainInteger(x.Floor)
  }

  /** Numbers are plain integers, and keys and strings are C strings. */
  ghost predicate Printable(v: Json) {
    match v
    case Number(x) => IsPlain(x)
    case Str(s) => NulFree(s)
    case Array(items) => PrintableItems(items)
    case Object(members) => PrintableMembers(members)
    case _ => true
  }

  ghost predicate PrintableItems(items: Items) {
    items.Item? ==> Printable(items.head) && PrintableItems(items.tail)
  }

  ghost predicate PrintableMembers(members: Members) {
    members.Member? ==> NulFree(members.key) && Printable(members.value) && PrintableMembers(members.rest)
  }

  ghost predicate PlainNumbers(v: Json) {
    match v
    case Number(x) => IsPlain(x)
    case Array(items) => PlainItems(items)
    case Object(members) => PlainMembers(members)
    case _ => true
  }

  ghost predicate PlainItems(items: Items) {
    items.Item? ==> PlainNumbers(items.head) && PlainItems(items.tail)
  }

  ghost predicate PlainMembers(members: Members) {
    members.Member? ==> PlainNumbers(members.value) && PlainMembers(members.rest)
  }

  // Sizes, for the termination of walks that follow the chains with a loop.

  ghost function Size(v: Json): nat {
    match v
    case Array(items) => 1 + ItemsSize(items)
    case Object(members) => 1 + MembersSize(members)
    case _ => 0
  }

  ghost function ItemsSize(items: Items): nat {
    match items
    case NoItems => 0
    case Item(head, tail) => 1 + Size(head) + ItemsSize(tail)
  }

  ghost function MembersSize(members: Members): nat {
    match members
    case NoMembers => 0
    case Member(_, value, rest) => 1 + Size(value) + MembersSize(rest)
  }
}
