/**
 * Property generation: the shared-modifier resolver, the per-attribute
 * callbacks of the property-table pass and of the accessor-body pass, the
 * type-handler pass, and the recursive walk over an interface, its
 * inheritance parent and its `implements` interfaces that both passes share.
 */
module Property {
  import opened Wrappers
  import opened WebIdl
  import opened Genbind
  import opened TypeMap
  import opened Output

  /** The parts of `struct binding` that generation reads; the output sink
      is the `outfile` field of the class in module Generator. */
  datatype Context = Context(interface: string, hasPrivate: bool, spec: BindingSpec, idl: Idl)

  /** Name of the return local every attribute getter declares. */
  const ReturnLocal: string := "jsret"

  // ---------------------------------------------------------------------
  // Shared-modifier resolution

  /** get_binding_shared_modifier: the override keyed by the identifier wins,
      even when it has no modifier; only when there is none is an override
      keyed by the type name consulted. */
  function SharedModifier(props: seq<PropertyOverride>, typeName: Option<string>, ident: string): (m: int)
    ensures forall j :: IsFirst(props, j, ident) ==> m == ModifierOf(props[j])
    ensures !HasKey(props, ident) && typeName.Some? ==>
      forall j :: IsFirst(props, j, typeName.value) ==> m == ModifierOf(props[j])
    ensures !HasKey(props, ident) && (typeName.None? || !HasKey(props, typeName.value)) ==> m == ModNone
  {
    var found :=
      match Find(props, ident)
      case Some(j) => Some(j)
      case None => if typeName.Some? then Find(props, typeName.value) else None;
    match found
    case Some(j) => ModifierOf(props[j])
    case None => ModNone
  }

  /** The modifier that governs attribute `a` (which has identifier `ident`). */
  function AttrModifier(c: Context, a: Attr, ident: string): int {
    SharedModifier(c.spec.properties, a.typeName, ident)
  }

  // ---------------------------------------------------------------------
  // The property-table pass

  datatype Pass = TablePass | BodyPass

  /** Result of a callback or a walk: its status and what it wrote. */
  datatype Gen = Gen(status: int, out: seq<Emit>)

  /** webidl_property_spec_cb: one JSAPI_PS entry per named attribute. */
  function TableCallback(c: Context, a: Attr): (g: Gen)
    ensures a.ident.None? ==> g == Gen(-1, [])
    ensures a.ident.Some? ==>
      var m := AttrModifier(c, a, a.ident.value);
      && g.status == 0 && |g.out| == 1 && g.out[0].Entry?
      && g.out[0].name == a.ident.value
      && (g.out[0].readonly <==> a.readonly)
      && Enumerate in g.out[0].flags
      && (Shared in g.out[0].flags <==> m != ModUnshared && m != ModTypeUnshared)
      && g.out[0].slot == (if m == ModType || m == ModTypeUnshared then a.typeName else a.ident)
  {
    match a.ident
    case None => Gen(-1, [])
    case Some(ident) =>
      var m := AttrModifier(c, a, ident);
      var e :=
        if m == ModType then Entry(ident, a.readonly, a.typeName, {Enumerate, Shared})
        else if m == ModUnshared then Entry(ident, a.readonly, Some(ident), {Enumerate})
        else if m == ModTypeUnshared then Entry(ident, a.readonly, a.typeName, {Enumerate})
        else Entry(ident, a.readonly, Some(ident), {Enumerate, Shared});
      Gen(0, [e])
  }

  // ---------------------------------------------------------------------
  // The accessor-body pass

  /** output_return_declaration applied to attribute `a` and local `local`. */
  function DeclareReturn(a: Attr, local: string): seq<Emit> {
    match ReturnDeclaration(a.base, a.unsigned)
    case Mapped(d) => [Declare(d.native, local, d.default, if a.base == User then a.typeName else None)]
    case _ => []
  }

  /** output_return applied to attribute `a` and local `local`. */
  function ConvertReturn(a: Attr, local: string): seq<Emit> {
    match ReturnConversion(a.base)
    case Mapped(conv) => [SetReturn(conv, local)]
    case _ => []
  }

  /** The private-record fetch emitted when the class has private storage. */
  function Prologue(c: Context): seq<Emit> {
    if c.hasPrivate then [PrivatePrologue(c.interface)] else []
  }

  /** Where an attribute getter takes its value from: the GETTER block keyed
      by the identifier, else an internal field of that name, else a
      placeholder that logs the missing implementation. */
  function GetterSource(c: Context, ident: string): (e: Emit)
    ensures forall j :: IsFirst(c.spec.getters, j, ident) ==> e == CopyCode(c.spec.getters[j].value)
    ensures !HasKey(c.spec.getters, ident) && Some(ident) in c.spec.internals ==> e == ReadInternal(ident)
    ensures !HasKey(c.spec.getters, ident) && Some(ident) !in c.spec.internals ==>
      e == Placeholder(c.interface, ident)
  {
    match Find(c.spec.getters, ident)
    case Some(j) => CopyCode(c.spec.getters[j].value)
    case None =>
      if Some(ident) in c.spec.internals then ReadInternal(ident) else Placeholder(c.interface, ident)
  }

  /** What an attribute getter does between opening and returning: declare
      the return local, fetch the private record, take the value from its
      source and convert it for the engine. */
  function GetterBody(c: Context, a: Attr, ident: string): seq<Emit> {
    DeclareReturn(a, ReturnLocal) + Prologue(c) + [GetterSource(c, ident)] + ConvertReturn(a, ReturnLocal)
  }

  /** output_property_getter. */
  function Getter(c: Context, a: Attr, ident: string): seq<Emit> {
    [GetterOpen(ident)] + GetterBody(c, a, ident) + [ReturnTrue]
  }

  /** Tokens that `v` does not show leave nothing in its filter. */
  lemma {:induction false} FilterHidden(out: seq<Emit>, v: View)
    requires forall i :: 0 <= i < |out| ==> !Shows(v, out[i])
    ensures Filter(out, v) == []
  {
    if out != [] {
      FilterHidden(out[1..], v);
    }
  }

  lemma GetterSourceKind(c: Context, ident: string)
    ensures var e := GetterSource(c, ident); e.CopyCode? || e.ReadInternal? || e.Placeholder?
  {
    match Find(c.spec.getters, ident)
    case Some(j) =>
    case None =>
  }

  lemma GetterBodyFacts(c: Context, a: Attr, ident: string)
    ensures var body := GetterBody(c, a, ident);
      && |body| >= 1
      && (body[0].Declare? <==> ReturnDeclaration(a.base, a.unsigned).Mapped?)
      && GetterSource(c, ident) in body
      && (PrivatePrologue(c.interface) in body <==> c.hasPrivate)
      && (forall i :: 0 <= i < |body| ==> !Shows(Accessors, body[i]))
      && (forall i :: 0 <= i < |body| ==> !Shows(Markers, body[i]))
  {
    GetterSourceKind(c, ident);
  }

  /** Position of the value source in a getter: after the opening, the
      declaration of the return local (if any) and the private-record fetch
      (if any). */
  function SourceIndex(c: Context, a: Attr): nat {
    (if ReturnDeclaration(a.base, a.unsigned).Mapped? then 2 else 1) + (if c.hasPrivate then 1 else 0)
  }

  /** The getter laid out token by token: opening, declaration of the return
      local with the type's native type and default, private-record fetch,
      value source, conversion of the return local, success. */
  lemma GetterLayout(c: Context, a: Attr, ident: string)
    ensures var r := Getter(c, a, ident);
      var decl := ReturnDeclaration(a.base, a.unsigned);
      var s := SourceIndex(c, a);
      && |r| == s + (if ReturnConversion(a.base).Mapped? then 3 else 2)
      && r[0] == GetterOpen(ident) && r[|r| - 1] == ReturnTrue
      && (decl.Mapped? ==>
            r[1].Declare? && r[1].native == decl.value.native && r[1].local == ReturnLocal
            && r[1].default == decl.value.default)
      && (c.hasPrivate ==> r[s - 1] == PrivatePrologue(c.interface))
      && r[s] == GetterSource(c, ident)
      && (ReturnConversion(a.base).Mapped? ==> r[s + 1] == SetReturn(ReturnConversion(a.base).value, ReturnLocal))
  {
    var d, p, v := DeclareReturn(a, ReturnLocal), Prologue(c), ConvertReturn(a, ReturnLocal);
    var r := Getter(c, a, ident);
    assert r == [GetterOpen(ident)] + d + p + [GetterSource(c, ident)] + v + [ReturnTrue];
    assert |d| == (if ReturnDeclaration(a.base, a.unsigned).Mapped? then 1 else 0);
    assert |v| == (if ReturnConversion(a.base).Mapped? then 1 else 0);
  }

  /** An attribute getter opens one accessor named by the identifier. It
      declares the return local (with the type's native type and default)
      exactly when the type has a declaration, then fetches the private
      record exactly when the class has one, then reads the value from the
      chosen source, then converts the return local when the type has a
      conversion, and ends by returning success. */
  lemma GetterShape(c: Context, a: Attr, ident: string)
    ensures var r := Getter(c, a, ident);
      var decl := ReturnDeclaration(a.base, a.unsigned);
      var s := SourceIndex(c, a);
      && |r| >= 3 && r[0] == GetterOpen(ident) && r[|r| - 1] == ReturnTrue
      && (r[1].Declare? <==> decl.Mapped?)
      && (decl.Mapped? ==>
            r[1].native == decl.value.native && r[1].local == ReturnLocal && r[1].default == decl.value.default)
      && s < |r| - 1 && r[s] == GetterSource(c, ident)
      && (PrivatePrologue(c.interface) in r <==> c.hasPrivate)
      && (c.hasPrivate ==> r[s - 1] == PrivatePrologue(c.interface))
      && (ReturnConversion(a.base).Mapped? ==>
            r[|r| - 2] == SetReturn(ReturnConversion(a.base).value, ReturnLocal))
      && (!ReturnConversion(a.base).Mapped? ==> r[|r| - 2] == GetterSource(c, ident))
      && Filter(r, Accessors) == [GetterOpen(ident)]
  {
    var body := GetterBody(c, a, ident);
    GetterBodyFacts(c, a, ident);
    GetterLayout(c, a, ident);
    FilterHidden(body, Accessors);
    FilterAppend([GetterOpen(ident)], body, Accessors);
    FilterAppend([GetterOpen(ident)] + body, [ReturnTrue], Accessors);
  }

  /** output_property_setter: nothing for a readonly attribute; otherwise a
      setter that always reports failure. */
  function Setter(a: Attr, ident: string): seq<Emit> {
    if a.readonly then [] else [SetterOpen(ident), ReturnFalse]
  }

  lemma SetterFacts(a: Attr, ident: string)
    ensures Filter(Setter(a, ident), Accessors) == if a.readonly then [] else [SetterOpen(ident)]
  {
    if !a.readonly {
      var r := [SetterOpen(ident), ReturnFalse];
      assert r[1..] == [ReturnFalse];
      assert Filter([ReturnFalse], Accessors) == [] by { FilterHidden([ReturnFalse], Accessors); }
    }
  }

  /** webidl_property_body_cb: no per-attribute accessors when the modifier
      has the type-handler bit. */
  function BodyCallback(c: Context, a: Attr): (g: Gen)
    ensures g.status == 0 <==> a.ident.Some?
    ensures g.status == 0 || g.status == -1
    ensures a.ident.None? ==> g == Gen(-1, [])
    ensures a.ident.Some? && HasTypeBit(AttrModifier(c, a, a.ident.value)) ==> g.out == []
    ensures a.ident.Some? && !HasTypeBit(AttrModifier(c, a, a.ident.value)) ==>
      g.out == Setter(a, a.ident.value) + Getter(c, a, a.ident.value)
  {
    match a.ident
    case None => Gen(-1, [])
    case Some(ident) =>
      if HasTypeBit(AttrModifier(c, a, ident)) then Gen(0, [])
      else Gen(0, Setter(a, ident) + Getter(c, a, ident))
  }

  /** The accessor functions the body pass is meant to open for one attribute:
      none without an identifier or under a type handler; otherwise a setter
      unless readonly, then a getter. */
  function IntendedAccessors(c: Context, a: Attr): seq<Emit> {
    match a.ident
    case None => []
    case Some(ident) =>
      if HasTypeBit(AttrModifier(c, a, ident)) then []
      else (if a.readonly then [] else [SetterOpen(ident)]) + [GetterOpen(ident)]
  }

  /** The body pass opens exactly the intended accessors for an attribute. */
  lemma BodyCallbackAccessors(c: Context, a: Attr)
    ensures Filter(BodyCallback(c, a).out, Accessors) == IntendedAccessors(c, a)
  {
    match a.ident
    case None =>
    case Some(ident) =>
      if !HasTypeBit(AttrModifier(c, a, ident)) {
        GetterShape(c, a, ident);
        FilterAppend(Setter(a, ident), Getter(c, a, ident), Accessors);
        SetterFacts(a, ident);
      }
  }

  /** A readonly attribute never gets a setter, whatever its modifier. */
  lemma ReadonlyHasNoSetter(c: Context, a: Attr, n: string)
    requires a.readonly
    ensures SetterOpen(n) !in BodyCallback(c, a).out
  {
    if SetterOpen(n) in BodyCallback(c, a).out {
      FilterContains(BodyCallback(c, a).out, SetterOpen(n), Accessors);
      BodyCallbackAccessors(c, a);
    }
  }

  /** A writable attribute without a type handler gets a setter whose whole
      body reports failure, followed by its getter. */
  lemma WritableSetterFails(c: Context, a: Attr)
    requires a.ident.Some? && !a.readonly && !HasTypeBit(AttrModifier(c, a, a.ident.value))
    ensures BodyCallback(c, a).out == [SetterOpen(a.ident.value), ReturnFalse] + Getter(c, a, a.ident.value)
  {
  }

  lemma {:induction false} FilterContains(out: seq<Emit>, e: Emit, v: View)
    requires e in out && Shows(v, e)
    ensures e in Filter(out, v)
  {
    if out[0] != e {
      FilterContains(out[1..], e, v);
    }
  }

  // ---------------------------------------------------------------------
  // The type-handler pass

  /** The first code block keyed by `k`, if any. */
  function BlockFor(blocks: seq<Keyed<CodeBlock>>, k: string): (r: Option<CodeBlock>)
    ensures r.None? <==> !HasKey(blocks, k)
    ensures forall j :: IsFirst(blocks, j, k) ==> r == Some(blocks[j].value)
  {
    match Find(blocks, k)
    case Some(j) =>
      Some(blocks[j].value)
    case None => None
  }

  /** output_property_type_setter / output_property_type_getter: open the
      accessor, fetch the private record if any, copy the block if there is
      one, and return success. */
  function TypeAccessor(c: Context, open: Emit, block: Option<CodeBlock>): seq<Emit> {
    [open] + Prologue(c) + (if block.Some? then [CopyCode(block.value)] else []) + [ReturnTrue]
  }

  /** The code blocks `part` copies are exactly the first block of `blocks`
      keyed by `k`, or none when there is no such block. */
  ghost predicate CopiesFirst(part: seq<Emit>, blocks: seq<Keyed<CodeBlock>>, k: string) {
    forall b :: CopyCode(b) in part <==> exists j :: IsFirst(blocks, j, k) && blocks[j].value == b
  }

  /** `r` is a type-handler setter named `k` copying the first SETTER block
      keyed by `k`, followed by a getter named `k` copying the first GETTER
      block keyed by `k`, each ending with success. */
  ghost predicate HandlerPair(r: seq<Emit>, k: string, setters: seq<Keyed<CodeBlock>>, getters: seq<Keyed<CodeBlock>>) {
    exists n :: 1 < n < |r| - 1
      && r[0] == SetterOpen(k) && r[n - 1] == ReturnTrue
      && r[n] == GetterOpen(k) && r[|r| - 1] == ReturnTrue
      && CopiesFirst(r[..n], setters, k) && CopiesFirst(r[n..], getters, k)
  }

  /** A type-handler accessor copies exactly the block it is given, opens
      only the accessor asked for, and fetches the private record exactly
      when the class has one. */
  lemma TypeAccessorParts(c: Context, open: Emit, block: Option<CodeBlock>)
    requires open.SetterOpen? || open.GetterOpen?
    ensures var r := TypeAccessor(c, open, block);
      && |r| >= 2 && r[0] == open && r[|r| - 1] == ReturnTrue
      && (forall b :: CopyCode(b) in r <==> block == Some(b))
      && (PrivatePrologue(c.interface) in r <==> c.hasPrivate)
      && Filter(r, Accessors) == [open]
  {
    var body := Prologue(c) + (if block.Some? then [CopyCode(block.value)] else []);
    FilterHidden(body, Accessors);
    FilterAppend([open], body, Accessors);
    FilterAppend([open] + body, [ReturnTrue], Accessors);
    assert TypeAccessor(c, open, block) == [open] + body + [ReturnTrue];
  }

  /** A type-handler accessor for key `k` opens exactly the accessor asked
      for, copies exactly the first block of `blocks` keyed by `k` (nothing
      when there is none), fetches the private record exactly when the class
      has one, and returns success. */
  lemma TypeAccessorShape(c: Context, open: Emit, blocks: seq<Keyed<CodeBlock>>, k: string)
    requires open.SetterOpen? || open.GetterOpen?
    ensures var r := TypeAccessor(c, open, BlockFor(blocks, k));
      && |r| >= 2 && r[0] == open && r[|r| - 1] == ReturnTrue
      && CopiesFirst(r, blocks, k)
      && (PrivatePrologue(c.interface) in r <==> c.hasPrivate)
      && Filter(r, Accessors) == [open]
  {
    var block := BlockFor(blocks, k);
    TypeAccessorParts(c, open, block);
    if block.Some? {
      var j := Find(blocks, k).value;
      assert IsFirst(blocks, j, k) && blocks[j].value == block.value;
    }
  }

  /** typehandler_property_cb: a setter and a getter named by the override's
      identifier, for an override whose modifier has the type-handler bit. */
  function TypeHandlerCallback(c: Context, o: PropertyOverride): seq<Emit> {
    if HasTypeBit(ModifierOf(o)) && o.key.Some? then
      TypeAccessor(c, SetterOpen(o.key.value), BlockFor(c.spec.setters, o.key.value))
      + TypeAccessor(c, GetterOpen(o.key.value), BlockFor(c.spec.getters, o.key.value))
    else []
  }

  /** typehandler_property_cb writes, for an override with the type-handler
      bit and an identifier, the setter/getter pair named by it and copying
      the blocks keyed by it; for any other override, nothing. */
  lemma TypeHandlerBlocks(c: Context, o: PropertyOverride)
    ensures !(HasTypeBit(ModifierOf(o)) && o.key.Some?) ==> TypeHandlerCallback(c, o) == []
    ensures HasTypeBit(ModifierOf(o)) && o.key.Some? ==>
      HandlerPair(TypeHandlerCallback(c, o), o.key.value, c.spec.setters, c.spec.getters)
  {
    if HasTypeBit(ModifierOf(o)) && o.key.Some? {
      var k := o.key.value;
      var s := TypeAccessor(c, SetterOpen(k), BlockFor(c.spec.setters, k));
      var g := TypeAccessor(c, GetterOpen(k), BlockFor(c.spec.getters, k));
      TypeAccessorShape(c, SetterOpen(k), c.spec.setters, k);
      TypeAccessorShape(c, GetterOpen(k), c.spec.getters, k);
      var r := TypeHandlerCallback(c, o);
      assert r == s + g;
      assert r[..|s|] == s && r[|s|..] == g;
      assert r[|s|] == g[0];
      assert CopiesFirst(r[..|s|], c.spec.setters, k);
      assert CopiesFirst(r[|s|..], c.spec.getters, k);
    }
  }

  /** The for-each over BINDING_PROPERTY overrides; every callback succeeds. */
  function TypeHandlers(c: Context, props: seq<PropertyOverride>): seq<Emit> {
    if props == [] then [] else TypeHandlerCallback(c, props[0]) + TypeHandlers(c, props[1..])
  }

  lemma {:induction false} TypeHandlersAppend(c: Context, a: seq<PropertyOverride>, b: seq<PropertyOverride>)
    ensures TypeHandlers(c, a + b) == TypeHandlers(c, a) + TypeHandlers(c, b)
  {
    if a == [] {
      assert a + b == b;
    } else {
      assert (a + b)[0] == a[0];
      assert (a + b)[1..] == a[1..] + b;
      TypeHandlersAppend(c, a[1..], b);
    }
  }

  /** One more override adds its handlers at the end. */
  lemma TypeHandlersStep(c: Context, props: seq<PropertyOverride>, i: nat)
    requires i < |props|
    ensures TypeHandlers(c, props[..i + 1]) == TypeHandlers(c, props[..i]) + TypeHandlerCallback(c, props[i])
  {
    TypeHandlersAppend(c, props[..i], [props[i]]);
    assert props[..i + 1] == props[..i] + [props[i]];
    assert TypeHandlers(c, [props[i]]) == TypeHandlerCallback(c, props[i]) + TypeHandlers(c, []);
  }

  /** Identifiers of the overrides that get a type-handler pair, in order. */
  function HandlerKeys(props: seq<PropertyOverride>): seq<string> {
    if props == [] then []
    else
      var o := props[0];
      (if HasTypeBit(ModifierOf(o)) && o.key.Some? then [o.key.value] else []) + HandlerKeys(props[1..])
  }

  /** A setter then a getter for each name. */
  function Pairs(names: seq<string>): seq<Emit> {
    if names == [] then [] else [SetterOpen(names[0]), GetterOpen(names[0])] + Pairs(names[1..])
  }

  lemma TypeHandlerCallbackOpenings(c: Context, o: PropertyOverride)
    ensures Filter(TypeHandlerCallback(c, o), Accessors) ==
      if HasTypeBit(ModifierOf(o)) && o.key.Some? then [SetterOpen(o.key.value), GetterOpen(o.key.value)] else []
  {
    if HasTypeBit(ModifierOf(o)) && o.key.Some? {
      var t := o.key.value;
      TypeAccessorShape(c, SetterOpen(t), c.spec.setters, t);
      TypeAccessorShape(c, GetterOpen(t), c.spec.getters, t);
      FilterAppend(TypeAccessor(c, SetterOpen(t), BlockFor(c.spec.setters, t)),
                   TypeAccessor(c, GetterOpen(t), BlockFor(c.spec.getters, t)), Accessors);
    }
  }

  /** The type-handler pass opens exactly one setter followed by one getter
      per override with the type-handler bit and an identifier, in override
      order, each named by that identifier. */
  lemma {:induction false} TypeHandlerOpenings(c: Context, props: seq<PropertyOverride>)
    ensures Filter(TypeHandlers(c, props), Accessors) == Pairs(HandlerKeys(props))
  {
    if props != [] {
      TypeHandlerCallbackOpenings(c, props[0]);
      TypeHandlerOpenings(c, props[1..]);
      FilterAppend(TypeHandlerCallback(c, props[0]), TypeHandlers(c, props[1..]), Accessors);
      var o, rest := props[0], HandlerKeys(props[1..]);
      if HasTypeBit(ModifierOf(o)) && o.key.Some? {
        assert ([o.key.value] + rest)[1..] == rest;
      } else {
        assert HandlerKeys(props) == rest;
      }
    }
  }

  lemma {:induction false} TypeHandlersInclude(c: Context, props: seq<PropertyOverride>, j: nat, e: Emit)
    requires j < |props| && e in TypeHandlerCallback(c, props[j])
    ensures e in TypeHandlers(c, props)
  {
    if j > 0 {
      TypeHandlersInclude(c, props[1..], j - 1, e);
    }
  }

  /** An attribute whose modifier comes from an override keyed by its type
      name, and is a type-handler classification, gets a table slot naming the
      type, no accessors of its own, and a setter and getter of that name
      from the type-handler pass. */
  lemma TypeSlotHasHandler(c: Context, a: Attr)
    requires a.ident.Some? && a.typeName.Some?
    requires !HasKey(c.spec.properties, a.ident.value)
    requires AttrModifier(c, a, a.ident.value) in {ModType, ModTypeUnshared}
    ensures TableCallback(c, a).out[0].slot == a.typeName
    ensures BodyCallback(c, a).out == []
    ensures SetterOpen(a.typeName.value) in TypeHandlers(c, c.spec.properties)
    ensures GetterOpen(a.typeName.value) in TypeHandlers(c, c.spec.properties)
  {
    var props, t := c.spec.properties, a.typeName.value;
    var j := Find(props, t).value;
    assert ModifierOf(props[j]) == AttrModifier(c, a, a.ident.value);
    var setter := TypeAccessor(c, SetterOpen(t), BlockFor(c.spec.setters, t));
    var getter := TypeAccessor(c, GetterOpen(t), BlockFor(c.spec.getters, t));
    TypeAccessorShape(c, SetterOpen(t), c.spec.setters, t);
    TypeAccessorShape(c, GetterOpen(t), c.spec.getters, t);
    assert TypeHandlerCallback(c, props[j]) == setter + getter;
    assert setter[0] in setter + getter;
    assert getter[0] in setter + getter;
    TypeHandlersInclude(c, props, j, SetterOpen(t));
    TypeHandlersInclude(c, props, j, GetterOpen(t));
  }

  /** For the four classifications, the table names the type in the slot
      exactly when the body pass writes no accessors of the attribute's own. */
  lemma TableAgreesWithBodies(c: Context, a: Attr)
    requires a.ident.Some? && 0 <= AttrModifier(c, a, a.ident.value) <= 3
    ensures var m := AttrModifier(c, a, a.ident.value);
      (m == ModType || m == ModTypeUnshared) <==> BodyCallback(c, a).out == []
  {
  }

  // ---------------------------------------------------------------------
  // The walk shared by both passes

  function Callback(c: Context, pass: Pass, a: Attr): Gen {
    match pass
    case TablePass => TableCallback(c, a)
    case BodyPass => BodyCallback(c, a)
  }

  /** webidl_node_for_each_type over the ATTRIBUTE children of one fragment:
      members in order, stopping at the first callback that fails. */
  function AttributeWalk(c: Context, pass: Pass, ms: Fragment): Gen {
    if ms == [] then Gen(0, [])
    else match ms[0]
      case OtherMember => AttributeWalk(c, pass, ms[1..])
      case AttributeMember(a) =>
        var h := Callback(c, pass, a);
        if h.status != 0 then h
        else
          var t := AttributeWalk(c, pass, ms[1..]);
          Gen(t.status, h.out + t.out)
  }

  /** A fragment together with the name of the interface it was reached through. */
  datatype Labelled = Labelled(iface: string, fragment: Fragment)

  function Label(name: string, fs: seq<Fragment>): (r: seq<Labelled>)
    ensures |r| == |fs|
    ensures forall i :: 0 <= i < |fs| ==> r[i] == Labelled(name, fs[i])
  {
    seq(|fs|, i requires 0 <= i < |fs| => Labelled(name, fs[i]))
  }

  /** What one fragment loop writes: per fragment a marker and the
      fragment's attributes; the for-each status is discarded. */
  function Render(c: Context, pass: Pass, lfs: seq<Labelled>): seq<Emit> {
    if lfs == [] then []
    else [Marker(lfs[0].iface)] + AttributeWalk(c, pass, lfs[0].fragment).out + Render(c, pass, lfs[1..])
  }

  lemma {:induction false} RenderAppend(c: Context, pass: Pass, a: seq<Labelled>, b: seq<Labelled>)
    ensures Render(c, pass, a + b) == Render(c, pass, a) + Render(c, pass, b)
  {
    if a == [] {
      assert a + b == b;
    } else {
      assert (a + b)[0] == a[0];
      assert (a + b)[1..] == a[1..] + b;
      RenderAppend(c, pass, a[1..], b);
    }
  }

  /** One more fragment adds its marker and its attributes at the end. */
  lemma RenderStep(c: Context, pass: Pass, name: string, fs: seq<Fragment>, i: nat)
    requires i < |fs|
    ensures Render(c, pass, Label(name, fs[..i + 1]))
      == Render(c, pass, Label(name, fs[..i])) + [Marker(name)] + AttributeWalk(c, pass, fs[i]).out
  {
    assert Label(name, fs[..i + 1]) == Label(name, fs[..i]) + [Labelled(name, fs[i])];
    RenderAppend(c, pass, Label(name, fs[..i]), [Labelled(name, fs[i])]);
  }

  /** generate_property_spec / generate_property_body: -1 and no output for an
      unknown interface; otherwise the interface's own fragments, then its
      parent, then (only if the parent succeeded) its implements list. */
  function Walk(c: Context, pass: Pass, name: string, ghost rank: string -> nat): (g: Gen)
    requires Ranked(c.idl, rank)
    ensures g.status == 0 || g.status == -1
    decreases rank(name), 1, 0
  {
    match FindInterface(c.idl, name)
    case None => Gen(-1, [])
    case Some(k) =>
      var iface := c.idl[k];
      var own := Render(c, pass, Label(name, iface.fragments));
      var inherited := if iface.parent.Some? then Walk(c, pass, iface.parent.value, rank) else Gen(0, []);
      if inherited.status != 0 then Gen(inherited.status, own + inherited.out)
      else
        var mixins := MixinWalk(c, pass, iface.implements, rank, rank(name));
        Gen(mixins.status, own + inherited.out + mixins.out)
  }

  /** The for-each over INTERFACE_IMPLEMENTS children: each named interface in
      turn, stopping at the first that fails. */
  function MixinWalk(c: Context, pass: Pass, names: seq<string>, ghost rank: string -> nat, ghost bound: nat): (g: Gen)
    requires Ranked(c.idl, rank)
    requires forall j :: 0 <= j < |names| ==> rank(names[j]) < bound
    ensures g.status == 0 || g.status == -1
    decreases bound, 0, |names|
  {
    if names == [] then Gen(0, [])
    else
      var h := Walk(c, pass, names[0], rank);
      if h.status != 0 then h
      else
        var t := MixinWalk(c, pass, names[1..], rank, bound);
        Gen(t.status, h.out + t.out)
  }

  // ---------------------------------------------------------------------
  // The two entry points

  /** output_property_spec: the table header, the walk from the binding's
      interface, and the footer, which is written even when the walk fails. */
  function PropertySpecOutput(c: Context, ghost rank: string -> nat): Gen
    requires Ranked(c.idl, rank)
  {
    var w := Walk(c, TablePass, c.interface, rank);
    Gen(w.status, [TableHeader] + w.out + [TableFooter])
  }

  /** output_property_body: the body walk, then, only if it succeeded, the
      type-handler pass over the binding's overrides. */
  function PropertyBodyOutput(c: Context, ghost rank: string -> nat): Gen
    requires Ranked(c.idl, rank)
  {
    var w := Walk(c, BodyPass, c.interface, rank);
    if w.status == 0 then Gen(0, w.out + TypeHandlers(c, c.spec.properties)) else w
  }
}
