/**
 * Worked examples: a single interface with one readonly attribute, an
 * interface that only inherits it, and a type name marked unshared in the
 * binding specification.
 */
module Scenarios {
  import opened Wrappers
  import opened WebIdl
  import opened Genbind
  import opened TypeMap
  import opened Output
  import opened Property
  import opened Resolution

  /** `readonly long count;` */
  const Count: Attr := Attr(Some("count"), None, Long, false, true)

  /** `interface Foo { readonly long count; };` */
  const Foo: Interface := Interface("Foo", [[AttributeMember(Count)]], None, [])

  /** `interface Bar : Foo {};`: one LIST fragment with no members. */
  const Bar: Interface := Interface("Bar", [[]], Some("Foo"), [])

  const NoOverrides: BindingSpec := BindingSpec([], [], [], [])

  function FooRank(name: string): nat {
    if name == "Bar" then 1 else 0
  }

  lemma FooBarRanked()
    ensures Ranked([Foo, Bar], FooRank)
    ensures Ranked([Foo], FooRank)
  {
    forall name | FindInterface([Foo, Bar], name).Some?
      ensures RefsBelow([Foo, Bar][FindInterface([Foo, Bar], name).value], FooRank, FooRank(name))
    {
      var k := FindInterface([Foo, Bar], name).value;
      if k == 1 {
        assert name == "Bar";
      }
    }
  }

  /** With no overrides, `Foo` gets one shared, enumerable, read-only table
      entry stored under its identifier; its body pass writes a getter that
      declares a 32-bit signed local set to zero, falls back to the
      placeholder, converts the integer and returns success, and no setter. */
  lemma FooScenario()
    ensures var c := Context("Foo", false, NoOverrides, [Foo]);
      && PropertySpecOutput(c, FooRank) == Gen(0, [
           TableHeader,
           Marker("Foo"),
           Entry("count", true, Some("count"), {Enumerate, Shared}),
           TableFooter])
      && PropertyBodyOutput(c, FooRank) == Gen(0, [
           Marker("Foo"),
           GetterOpen("count"),
           Declare(Int32, ReturnLocal, ZeroValue, None),
           Placeholder("Foo", "count"),
           SetReturn(IntToJsval, ReturnLocal),
           ReturnTrue])
  {
    FooBarRanked();
    var c := Context("Foo", false, NoOverrides, [Foo]);
    CountCallbacks(c);
    FooWalks(c, TablePass);
    FooWalks(c, BodyPass);
  }

  /** The table entry and the accessors of `count` without overrides. */
  lemma CountCallbacks(c: Context)
    requires c.spec == NoOverrides && !c.hasPrivate
    ensures TableCallback(c, Count) == Gen(0, [Entry("count", true, Some("count"), {Enumerate, Shared})])
    ensures BodyCallback(c, Count) == Gen(0, [
      GetterOpen("count"),
      Declare(Int32, ReturnLocal, ZeroValue, None),
      Placeholder(c.interface, "count"),
      SetReturn(IntToJsval, ReturnLocal),
      ReturnTrue])
  {
    assert AttrModifier(c, Count, "count") == ModNone;
    assert GetterSource(c, "count") == Placeholder(c.interface, "count");
    assert Setter(Count, "count") == [];
    assert GetterBody(c, Count, "count") ==
      [Declare(Int32, ReturnLocal, ZeroValue, None), Placeholder(c.interface, "count"), SetReturn(IntToJsval, ReturnLocal)];
  }

  /** `Foo`'s own fragments render as one marker followed by what the
      callback writes for `count`. */
  lemma FooRenders(c: Context, pass: Pass)
    ensures Render(c, pass, Label("Foo", Foo.fragments)) == [Marker("Foo")] + Callback(c, pass, Count).out
  {
    var frag := [AttributeMember(Count)];
    assert frag[1..] == [];
    assert Label("Foo", Foo.fragments) == [Labelled("Foo", frag)];
    assert AttributeWalk(c, pass, frag).out == Callback(c, pass, Count).out;
  }

  /** What the two walks write for `Foo` in any context without overrides. */
  lemma FooWalks(c: Context, pass: Pass)
    requires Ranked(c.idl, FooRank)
    requires FindInterface(c.idl, "Foo") == Some(0) && c.idl[0] == Foo
    ensures Walk(c, pass, "Foo", FooRank) == Gen(0, [Marker("Foo")] + Callback(c, pass, Count).out)
  {
    FooRenders(c, pass);
  }

  /** In a tree where `Foo` comes first, `Foo` resolves to its own fragment. */
  lemma FooResolves(idl: Idl)
    requires Ranked(idl, FooRank) && FindInterface(idl, "Foo") == Some(0) && idl[0] == Foo
    ensures Resolve(idl, "Foo", FooRank) == Some([Labelled("Foo", [AttributeMember(Count)])])
  {
    var own := Label("Foo", Foo.fragments);
    assert own == [Labelled("Foo", [AttributeMember(Count)])];
    assert ResolveAll(idl, [], FooRank, 0) == Some([]);
    assert own + [] + [] == own;
  }

  /** `Bar` has one empty fragment of its own, then `Foo`'s: its table has
      `Bar`'s marker with nothing under it, then `Foo`'s marker and `count`. */
  lemma BarScenario()
    ensures Resolve([Foo, Bar], "Bar", FooRank) ==
      Some([Labelled("Bar", []), Labelled("Foo", [AttributeMember(Count)])])
    ensures ReachedAll(Resolve([Foo, Bar], "Bar", FooRank).value) == [Count]
    ensures var c := Context("Bar", false, NoOverrides, [Foo, Bar]);
      PropertySpecOutput(c, FooRank) == Gen(0, [
        TableHeader,
        Marker("Bar"),
        Marker("Foo"),
        Entry("count", true, Some("count"), {Enumerate, Shared}),
        TableFooter])
  {
    BarResolves();
    BarTable();
  }

  /** The table written for `Bar`. */
  lemma BarTable()
    ensures Ranked([Foo, Bar], FooRank)
    ensures var c := Context("Bar", false, NoOverrides, [Foo, Bar]);
      PropertySpecOutput(c, FooRank) == Gen(0, [
        TableHeader,
        Marker("Bar"),
        Marker("Foo"),
        Entry("count", true, Some("count"), {Enumerate, Shared}),
        TableFooter])
  {
    FooBarRanked();
    var c := Context("Bar", false, NoOverrides, [Foo, Bar]);
    CountCallbacks(c);
    BarWalks(c, TablePass);
  }

  /** `Bar` resolves to its own empty fragment followed by `Foo`'s. */
  lemma BarResolves()
    ensures Ranked([Foo, Bar], FooRank)
    ensures Resolve([Foo, Bar], "Bar", FooRank) ==
      Some([Labelled("Bar", []), Labelled("Foo", [AttributeMember(Count)])])
    ensures ReachedAll([Labelled("Bar", []), Labelled("Foo", [AttributeMember(Count)])]) == [Count]
  {
    FooBarRanked();
    var idl := [Foo, Bar];
    assert FindInterface(idl, "Bar") == Some(1);
    assert FindInterface(idl, "Foo") == Some(0);
    FooResolves(idl);
    var bar := [Labelled("Bar", [])];
    var foo := [Labelled("Foo", [AttributeMember(Count)])];
    var own := Label("Bar", Bar.fragments);
    assert |own| == 1 && own[0] == Labelled("Bar", []);
    assert own == bar;
    assert Resolve(idl, "Foo", FooRank) == Some(foo);
    assert ResolveAll(idl, [], FooRank, 1) == Some([]);
    assert own + foo + [] == bar + foo;
    assert idl[1].parent == Some("Foo") && idl[1].implements == [];
    assert Resolve(idl, "Bar", FooRank) == Some(own + foo + []);
    assert bar + foo == [Labelled("Bar", []), Labelled("Foo", [AttributeMember(Count)])];
    var frag := [AttributeMember(Count)];
    assert frag[1..] == [];
    assert Reached(frag) == [Count];
    assert (bar + foo)[1..] == foo && foo[1..] == [];
    assert ReachedAll(foo) == [Count] + [];
    assert ReachedAll(bar + foo) == [] + [Count];
  }

  /** `Bar`'s own fragment renders as its marker alone. */
  lemma BarRenders(c: Context, pass: Pass)
    ensures Render(c, pass, Label("Bar", Bar.fragments)) == [Marker("Bar")]
  {
    var bar := [Labelled("Bar", [])];
    assert Label("Bar", Bar.fragments) == bar;
    assert bar[1..] == [];
    assert AttributeWalk(c, pass, []).out == [];
    assert Render(c, pass, bar) == [Marker("Bar")] + [] + [];
  }

  /** What a walk from `Bar` writes: `Bar`'s marker, then `Foo`'s walk. */
  lemma BarWalks(c: Context, pass: Pass)
    requires c.idl == [Foo, Bar] && Ranked(c.idl, FooRank)
    ensures Walk(c, pass, "Bar", FooRank) ==
      Gen(0, [Marker("Bar")] + [Marker("Foo")] + Callback(c, pass, Count).out)
  {
    assert FindInterface(c.idl, "Bar") == Some(1);
    assert FindInterface(c.idl, "Foo") == Some(0);
    assert c.idl[1] == Bar;
    FooWalks(c, pass);
    BarRenders(c, pass);
    var inherited := Walk(c, pass, "Foo", FooRank);
    var mixins := MixinWalk(c, pass, [], FooRank, 1);
    assert mixins == Gen(0, []);
    assert Walk(c, pass, "Bar", FooRank) == Gen(0, [Marker("Bar")] + inherited.out + mixins.out);
  }

  /** A type-keyed UNSHARED override applies to an attribute of that type when
      no override names the attribute itself: its entry loses SHARED. */
  lemma UnsharedTypeScenario()
    ensures var name := Attr(Some("name"), Some("DOMString"), String, false, false);
      var spec := BindingSpec([Keyed(Some("DOMString"), Some(ModUnshared))], [], [], []);
      var c := Context("X", false, spec, [Interface("X", [[AttributeMember(name)]], None, [])]);
      TableCallback(c, name) == Gen(0, [Entry("name", false, Some("name"), {Enumerate})])
  {
    var props := [Keyed(Some("DOMString"), Some(ModUnshared))];
    assert Find(props, "name").None?;
    assert Find(props, "DOMString") == Some(0);
  }
}
