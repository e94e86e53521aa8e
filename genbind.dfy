/**
 * The binding-specification tree as the property generator reads it:
 * BINDING_PROPERTY overrides with an optional MODIFIER, GETTER and SETTER
 * code blocks, and the BINDING_INTERNAL fields of the first BINDING node.
 */
module Genbind {
  import opened Wrappers

  /** A node found by the text of its IDENT child. */
  datatype Keyed<V> = Keyed(key: Option<string>, value: V)

  ghost predicate HasKey<V>(s: seq<Keyed<V>>, k: string) {
    exists j :: 0 <= j < |s| && s[j].key == Some(k)
  }

  /** `s[j]` is the first node keyed by `k`. */
  ghost predicate IsFirst<V>(s: seq<Keyed<V>>, j: int, k: string) {
    0 <= j < |s| && s[j].key == Some(k) && forall i :: 0 <= i < j ==> s[i].key != Some(k)
  }

  /** genbind_node_find_type_ident: the first node keyed by `k`, if any. */
  function Find<V>(s: seq<Keyed<V>>, k: string): (r: Option<nat>)
    ensures r.None? <==> !HasKey(s, k)
    ensures r.Some? ==> IsFirst(s, r.value, k)
  {
    if s == [] then None
    else if s[0].key == Some(k) then Some(0)
    else match Find(s[1..], k)
      case None =>
        assert forall j :: 1 <= j < |s| ==> s[j] == s[1..][j - 1];
        None
      case Some(j) => Some(j + 1)
  }


  /** Values of enum genbind_type_modifier: a bit set with a type-handler bit
      (1) and an unshared bit (2). */
  const ModNone: int := 0
  const ModType: int := 1
  const ModUnshared: int := 2
  const ModTypeUnshared: int := 3

  /** `(m & GENBIND_TYPE_TYPE) != 0` for a two's-complement int. */
  predicate HasTypeBit(m: int) {
    m % 2 == 1
  }

  /** A verbatim block of C; the generator only copies it. */
  datatype CodeBlock = CodeBlock(text: string)

  /** A BINDING_PROPERTY override: its key and the integer of its MODIFIER child. */
  type PropertyOverride = Keyed<Option<int>>

  /** The modifier an override carries, a missing MODIFIER read as none. */
  function ModifierOf(o: PropertyOverride): int {
    match o.value
    case Some(m) => m
    case None => ModNone
  }

  datatype BindingSpec = BindingSpec(
    properties: seq<PropertyOverride>,  // BINDING_PROPERTY nodes of the binding list
    internals: seq<Option<string>>,     // BINDING_INTERNAL idents of the first BINDING node
    getters: seq<Keyed<CodeBlock>>,     // GETTER blocks of the whole tree
    setters: seq<Keyed<CodeBlock>>)     // SETTER blocks of the whole tree
}
