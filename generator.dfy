/**
 * The generator as the C code runs it: `struct binding` with its output
 * sink, loops over LIST fragments and over for-each children, and recursion
 * through the inheritance parent and the implemented interfaces.
 *
 * Each walking method returns the text it writes, in order, and its status;
 * the two entry points append that text to the binding's sink. Every method
 * is proved to write exactly what the specification functions of module
 * Property say, and to return their status.
 */
module Generator {
  import opened Wrappers
  import opened WebIdl
  import opened Genbind
  import opened Output
  import opened Property

  class Binding {
    const interface: string
    const hasPrivate: bool
    const spec: BindingSpec
    const idl: Idl
    /** The output sink; generation only ever appends to it. */
    var outfile: seq<Emit>

    constructor (interface: string, hasPrivate: bool, spec: BindingSpec, idl: Idl)
      ensures this.interface == interface && this.hasPrivate == hasPrivate
      ensures this.spec == spec && this.idl == idl
      ensures outfile == []
    {
      this.interface := interface;
      this.hasPrivate := hasPrivate;
      this.spec := spec;
      this.idl := idl;
      outfile := [];
    }

    function Ctx(): Context {
      Context(interface, hasPrivate, spec, idl)
    }

    /** output_property_spec: header, the table walk, footer (written even
        when the walk fails). */
    method OutputPropertySpec(ghost rank: string -> nat) returns (res: int)
      requires Ranked(idl, rank)
      modifies this
      ensures res == PropertySpecOutput(Ctx(), rank).status
      ensures outfile == old(outfile) + PropertySpecOutput(Ctx(), rank).out
    {
      var out;
      res, out := Generate(Ctx(), TablePass, interface, rank);
      outfile := outfile + ([TableHeader] + out + [TableFooter]);
    }

    /** output_property_body: the body walk, then the type handlers only if
        the walk succeeded. */
    method OutputPropertyBody(ghost rank: string -> nat) returns (res: int)
      requires Ranked(idl, rank)
      modifies this
      ensures res == PropertyBodyOutput(Ctx(), rank).status
      ensures outfile == old(outfile) + PropertyBodyOutput(Ctx(), rank).out
    {
      var out;
      res, out := Generate(Ctx(), BodyPass, interface, rank);
      if res == 0 {
        var handlers;
        res, handlers := ForEachTypeHandler(Ctx());
        out := out + handlers;
      }
      outfile := outfile + out;
    }
  }

  /** generate_property_spec (pass = TablePass) and generate_property_body
      (pass = BodyPass): the fragment loop, then the parent, then the
      implemented interfaces if the parent succeeded. */
  method Generate(c: Context, pass: Pass, name: string, ghost rank: string -> nat) returns (res: int, out: seq<Emit>)
    requires Ranked(c.idl, rank)
    ensures res == Walk(c, pass, name, rank).status
    ensures out == Walk(c, pass, name, rank).out
    decreases rank(name), 1, 0
  {
    var found := FindInterface(c.idl, name);
    if found.None? {
      return -1, [];
    }
    var iface := c.idl[found.value];
    var fs := iface.fragments;
    out := [];
    var i := 0;
    while i < |fs|
      invariant 0 <= i <= |fs|
      invariant out == Render(c, pass, Label(name, fs[..i]))
    {
      var _, attrs := ForEachAttribute(c, pass, fs[i]);
      RenderStep(c, pass, name, fs, i);
      out := out + [Marker(name)] + attrs;
      i := i + 1;
    }
    assert fs[..i] == fs;
    res := 0;
    if iface.parent.Some? {
      var inherited;
      res, inherited := Generate(c, pass, iface.parent.value, rank);
      out := out + inherited;
    }
    if res == 0 {
      var mixins;
      res, mixins := ForEachImplements(c, pass, iface.implements, rank, rank(name));
      out := out + mixins;
    }
  }

  /** webidl_node_for_each_type over the ATTRIBUTE children of a fragment,
      stopping at the first callback that fails. */
  method ForEachAttribute(c: Context, pass: Pass, ms: Fragment) returns (res: int, out: seq<Emit>)
    ensures res == AttributeWalk(c, pass, ms).status
    ensures out == AttributeWalk(c, pass, ms).out
  {
    out := [];
    var i := 0;
    while i < |ms|
      invariant 0 <= i <= |ms|
      invariant AttributeWalk(c, pass, ms) ==
        Gen(AttributeWalk(c, pass, ms[i..]).status, out + AttributeWalk(c, pass, ms[i..]).out)
    {
      assert ms[i..][0] == ms[i] && ms[i..][1..] == ms[i + 1..];
      if ms[i].AttributeMember? {
        var h := Callback(c, pass, ms[i].attr);
        out := out + h.out;
        if h.status != 0 {
          return h.status, out;
        }
      }
      i := i + 1;
    }
    return 0, out;
  }

  /** webidl_node_for_each_type over INTERFACE_IMPLEMENTS children, stopping
      at the first interface whose walk fails. */
  method ForEachImplements(c: Context, pass: Pass, names: seq<string>, ghost rank: string -> nat, ghost bound: nat)
    returns (res: int, out: seq<Emit>)
    requires Ranked(c.idl, rank)
    requires forall j :: 0 <= j < |names| ==> rank(names[j]) < bound
    ensures res == MixinWalk(c, pass, names, rank, bound).status
    ensures out == MixinWalk(c, pass, names, rank, bound).out
    decreases bound, 0, |names|
  {
    out := [];
    var i := 0;
    while i < |names|
      invariant 0 <= i <= |names|
      invariant MixinWalk(c, pass, names, rank, bound) ==
        Gen(MixinWalk(c, pass, names[i..], rank, bound).status,
            out + MixinWalk(c, pass, names[i..], rank, bound).out)
    {
      assert names[i..][0] == names[i] && names[i..][1..] == names[i + 1..];
      var r, o := Generate(c, pass, names[i], rank);
      out := out + o;
      if r != 0 {
        return r, out;
      }
      i := i + 1;
    }
    return 0, out;
  }

  /** genbind_node_for_each_type over BINDING_PROPERTY overrides with
      typehandler_property_cb, which always succeeds. */
  method ForEachTypeHandler(c: Context) returns (res: int, out: seq<Emit>)
    ensures res == 0
    ensures out == TypeHandlers(c, c.spec.properties)
  {
    var props := c.spec.properties;
    out := [];
    var i := 0;
    while i < |props|
      invariant 0 <= i <= |props|
      invariant out == TypeHandlers(c, props[..i])
    {
      TypeHandlersStep(c, props, i);
      out := out + TypeHandlerCallback(c, props[i]);
      i := i + 1;
    }
    assert props[..i] == props;
    return 0, out;
  }
}
