/**
 * The WebIDL tree as the property generator reads it: interfaces made of
 * LIST fragments (partial interfaces), each fragment a sequence of members
 * of which only ATTRIBUTE members matter here, a single inheritance parent
 * and any number of `implements` names.
 */
module WebIdl {
  import opened Wrappers

  /** The WEBIDL_TYPE_* value of an attribute's TYPE_BASE node. */
  datatype BaseType =
    | User | Bool | Byte | Octet | Float | Double | Short | LongLong | Long
    | String | Sequence | Object | Date | Void
    | Unrecognised  // any other value, or no TYPE_BASE node at all

  /** An ATTRIBUTE node, reduced to the children the generator queries. */
  datatype Attr = Attr(
    ident: Option<string>,     // text of the IDENT child
    typeName: Option<string>,  // text of the IDENT inside the TYPE child
    base: BaseType,            // TYPE_BASE inside the TYPE child
    unsigned: bool,            // TYPE's MODIFIER is WEBIDL_TYPE_MODIFIER_UNSIGNED
    readonly: bool)            // the attribute's MODIFIER is WEBIDL_TYPE_READONLY

  /** A child of a LIST fragment: attributes, and everything else (operations, constants). */
  datatype Member = AttributeMember(attr: Attr) | OtherMember

  type Fragment = seq<Member>

  /** An INTERFACE node: its LIST children in document order, the text of its
      first INTERFACE_INHERITANCE child and of each INTERFACE_IMPLEMENTS child. */
  datatype Interface = Interface(
    name: string,
    fragments: seq<Fragment>,
    parent: Option<string>,
    implements: seq<string>)

  type Idl = seq<Interface>

  /** Position of the first INTERFACE whose identifier is `name`. */
  function FindInterface(idl: Idl, name: string): (r: Option<nat>)
    ensures r.None? <==> forall k :: 0 <= k < |idl| ==> idl[k].name != name
    ensures r.Some? ==> r.value < |idl| && idl[r.value].name == name
    ensures r.Some? ==> forall k :: 0 <= k < r.value ==> idl[k].name != name
  {
    if idl == [] then None
    else if idl[0].name == name then Some(0)
    else match FindInterface(idl[1..], name)
      case None => None
      case Some(k) => Some(k + 1)
  }

  /** Every name an interface refers to is ranked strictly below `bound`. */
  ghost predicate RefsBelow(iface: Interface, rank: string -> nat, bound: nat) {
    && (iface.parent.Some? ==> rank(iface.parent.value) < bound)
    && forall j :: 0 <= j < |iface.implements| ==> rank(iface.implements[j]) < bound
  }

  /** The inheritance/implements graph reachable through lookups is acyclic,
      witnessed by `rank`. On a cyclic graph the generator recurses forever. */
  ghost predicate Ranked(idl: Idl, rank: string -> nat) {
    forall name :: FindInterface(idl, name).Some? ==>
      RefsBelow(idl[FindInterface(idl, name).value], rank, rank(name))
  }
}
