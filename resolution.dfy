/**
 * The effective member list of an interface (its own fragments, then its
 * parent's, then each implemented interface's) as an independent reference,
 * and the theorems that both generation passes write exactly what that list
 * calls for, in that order.
 */
module Resolution {
  import opened Wrappers
  import opened WebIdl
  import opened Genbind
  import opened Output
  import opened Property

  /** The fragments an interface resolves to, each labelled with the interface
      it belongs to; None when it, or any interface reached from it, is not in
      the WebIDL tree. */
  function Resolve(idl: Idl, name: string, ghost rank: string -> nat): Option<seq<Labelled>>
    requires Ranked(idl, rank)
    decreases rank(name), 1, 0
  {
    match FindInterface(idl, name)
    case None => None
    case Some(k) =>
      var iface := idl[k];
      var inherited := if iface.parent.Some? then Resolve(idl, iface.parent.value, rank) else Some([]);
      if inherited.None? then None
      else
        var mixins := ResolveAll(idl, iface.implements, rank, rank(name));
        if mixins.None? then None
        else Some(Label(name, iface.fragments) + inherited.value + mixins.value)
  }

  function ResolveAll(idl: Idl, names: seq<string>, ghost rank: string -> nat, ghost bound: nat): Option<seq<Labelled>>
    requires Ranked(idl, rank)
    requires forall j :: 0 <= j < |names| ==> rank(names[j]) < bound
    decreases bound, 0, |names|
  {
    if names == [] then Some([])
    else
      var h := Resolve(idl, names[0], rank);
      if h.None? then None
      else
        var t := ResolveAll(idl, names[1..], rank, bound);
        if t.None? then None else Some(h.value + t.value)
  }

  /** The attributes of a fragment that the fail-fast for-each hands to a
      callback that succeeds: all of them up to the first one without an
      identifier. */
  function Reached(ms: Fragment): (r: seq<Attr>)
    ensures forall i :: 0 <= i < |r| ==> r[i].ident.Some?
  {
    if ms == [] then []
    else match ms[0]
      case OtherMember => Reached(ms[1..])
      case AttributeMember(a) => if a.ident.None? then [] else [a] + Reached(ms[1..])
  }

  function ReachedAll(lfs: seq<Labelled>): (r: seq<Attr>)
    ensures forall i :: 0 <= i < |r| ==> r[i].ident.Some?
  {
    if lfs == [] then [] else Reached(lfs[0].fragment) + ReachedAll(lfs[1..])
  }

  /** What the callbacks of `pass` write for these attributes, one after another. */
  function Outputs(c: Context, pass: Pass, attrs: seq<Attr>): seq<Emit> {
    if attrs == [] then [] else Callback(c, pass, attrs[0]).out + Outputs(c, pass, attrs[1..])
  }

  /** The accessors the body pass is meant to open for these attributes. */
  function IntendedAll(c: Context, attrs: seq<Attr>): seq<Emit> {
    if attrs == [] then [] else IntendedAccessors(c, attrs[0]) + IntendedAll(c, attrs[1..])
  }

  predicate AllNamed(ms: Fragment) {
    forall i :: 0 <= i < |ms| && ms[i].AttributeMember? ==> ms[i].attr.ident.Some?
  }

  // ---------------------------------------------------------------------
  // Concatenation

  lemma {:induction false} OutputsAppend(c: Context, pass: Pass, a: seq<Attr>, b: seq<Attr>)
    ensures Outputs(c, pass, a + b) == Outputs(c, pass, a) + Outputs(c, pass, b)
  {
    if a == [] {
      assert a + b == b;
    } else {
      assert (a + b)[0] == a[0];
      assert (a + b)[1..] == a[1..] + b;
      OutputsAppend(c, pass, a[1..], b);
    }
  }

  lemma {:induction false} ReachedAllAppend(a: seq<Labelled>, b: seq<Labelled>)
    ensures ReachedAll(a + b) == ReachedAll(a) + ReachedAll(b)
  {
    if a == [] {
      assert a + b == b;
    } else {
      assert (a + b)[0] == a[0];
      assert (a + b)[1..] == a[1..] + b;
      ReachedAllAppend(a[1..], b);
    }
  }

  // ---------------------------------------------------------------------
  // One fragment

  /** The for-each over one fragment writes the callbacks' output for the
      reached attributes, and fails exactly when some attribute has no
      identifier (that attribute and the rest of the fragment write nothing). */
  lemma {:induction false} AttributeWalkReaches(c: Context, pass: Pass, ms: Fragment)
    ensures AttributeWalk(c, pass, ms).out == Outputs(c, pass, Reached(ms))
    ensures AttributeWalk(c, pass, ms).status == 0 <==> AllNamed(ms)
  {
    if ms != [] {
      AttributeWalkReaches(c, pass, ms[1..]);
      assert AllNamed(ms) <==> (ms[0].AttributeMember? ==> ms[0].attr.ident.Some?) && AllNamed(ms[1..]) by {
        assert forall i :: 1 <= i < |ms| ==> ms[i] == ms[1..][i - 1];
      }
      match ms[0]
      case OtherMember =>
      case AttributeMember(a) =>
        if a.ident.Some? {
          assert Reached(ms) == [a] + Reached(ms[1..]);
          assert ([a] + Reached(ms[1..]))[1..] == Reached(ms[1..]);
        }
    }
  }

  // ---------------------------------------------------------------------
  // Rendered fragments

  /** Apart from the markers, rendering labelled fragments writes the
      callbacks' output for every reached attribute of every fragment, in order. */
  lemma {:induction false} RenderReaches(c: Context, pass: Pass, lfs: seq<Labelled>, v: View)
    requires v != Markers
    ensures Filter(Render(c, pass, lfs), v) == Filter(Outputs(c, pass, ReachedAll(lfs)), v)
  {
    if lfs != [] {
      var l := lfs[0];
      AttributeWalkReaches(c, pass, l.fragment);
      RenderReaches(c, pass, lfs[1..], v);
      var w := AttributeWalk(c, pass, l.fragment).out;
      FilterAppend([Marker(l.iface)], w + Render(c, pass, lfs[1..]), v);
      FilterAppend(w, Render(c, pass, lfs[1..]), v);
      assert [Marker(l.iface)] + w + Render(c, pass, lfs[1..]) == [Marker(l.iface)] + (w + Render(c, pass, lfs[1..]));
      OutputsAppend(c, pass, Reached(l.fragment), ReachedAll(lfs[1..]));
      FilterAppend(Outputs(c, pass, Reached(l.fragment)), Outputs(c, pass, ReachedAll(lfs[1..])), v);
    }
  }

  lemma {:induction false} OutputsHaveNoMarkers(c: Context, pass: Pass, attrs: seq<Attr>)
    ensures Filter(Outputs(c, pass, attrs), Markers) == []
  {
    if attrs != [] {
      OutputsHaveNoMarkers(c, pass, attrs[1..]);
      var a := attrs[0];
      assert Filter(Callback(c, pass, a).out, Markers) == [] by {
        match a.ident
        case None =>
        case Some(ident) =>
          if pass == BodyPass && !HasTypeBit(AttrModifier(c, a, ident)) {
            var s, g := Setter(a, ident), Getter(c, a, ident);
            GetterBodyFacts(c, a, ident);
            assert g == [GetterOpen(ident)] + GetterBody(c, a, ident) + [ReturnTrue];
            FilterHidden(s + g, Markers);
          } else if pass == TablePass {
            FilterHidden(Callback(c, pass, a).out, Markers);
          }
      }
      FilterAppend(Callback(c, pass, a).out, Outputs(c, pass, attrs[1..]), Markers);
    }
  }

  function Labels(lfs: seq<Labelled>): seq<Emit> {
    if lfs == [] then [] else [Marker(lfs[0].iface)] + Labels(lfs[1..])
  }

  /** Rendering writes exactly one marker per fragment, naming its interface. */
  lemma {:induction false} RenderMarkers(c: Context, pass: Pass, lfs: seq<Labelled>)
    ensures Filter(Render(c, pass, lfs), Markers) == Labels(lfs)
  {
    if lfs != [] {
      var l := lfs[0];
      var w := AttributeWalk(c, pass, l.fragment).out;
      AttributeWalkReaches(c, pass, l.fragment);
      OutputsHaveNoMarkers(c, pass, Reached(l.fragment));
      RenderMarkers(c, pass, lfs[1..]);
      FilterAppend([Marker(l.iface)], w + Render(c, pass, lfs[1..]), Markers);
      FilterAppend(w, Render(c, pass, lfs[1..]), Markers);
      assert [Marker(l.iface)] + w + Render(c, pass, lfs[1..]) == [Marker(l.iface)] + (w + Render(c, pass, lfs[1..]));
    }
  }

  // ---------------------------------------------------------------------
  // The walk

  /** Both passes succeed exactly when the interface resolves, fail with -1
      otherwise, and on success write the rendering of the resolved fragments. */
  lemma {:induction false} WalkRendersResolution(c: Context, pass: Pass, name: string, rank: string -> nat)
    requires Ranked(c.idl, rank)
    ensures Walk(c, pass, name, rank).status == if Resolve(c.idl, name, rank).Some? then 0 else -1
    ensures Resolve(c.idl, name, rank).Some? ==>
      Walk(c, pass, name, rank).out == Render(c, pass, Resolve(c.idl, name, rank).value)
    decreases rank(name), 1, 0
  {
    match FindInterface(c.idl, name)
    case None =>
    case Some(k) =>
      var iface := c.idl[k];
      if iface.parent.Some? {
        WalkRendersResolution(c, pass, iface.parent.value, rank);
      }
      var inherited := if iface.parent.Some? then Resolve(c.idl, iface.parent.value, rank) else Some([]);
      if inherited.Some? {
        MixinWalkRendersResolution(c, pass, iface.implements, rank, rank(name));
        var mixins := ResolveAll(c.idl, iface.implements, rank, rank(name));
        if mixins.Some? {
          var own := Label(name, iface.fragments);
          RenderAppend(c, pass, own, inherited.value);
          RenderAppend(c, pass, own + inherited.value, mixins.value);
        }
      }
  }

  lemma {:induction false} MixinWalkRendersResolution(c: Context, pass: Pass, names: seq<string>, rank: string -> nat, bound: nat)
    requires Ranked(c.idl, rank)
    requires forall j :: 0 <= j < |names| ==> rank(names[j]) < bound
    ensures MixinWalk(c, pass, names, rank, bound).status == if ResolveAll(c.idl, names, rank, bound).Some? then 0 else -1
    ensures ResolveAll(c.idl, names, rank, bound).Some? ==>
      MixinWalk(c, pass, names, rank, bound).out == Render(c, pass, ResolveAll(c.idl, names, rank, bound).value)
    decreases bound, 0, |names|
  {
    if names != [] {
      WalkRendersResolution(c, pass, names[0], rank);
      MixinWalkRendersResolution(c, pass, names[1..], rank, bound);
      var h := Resolve(c.idl, names[0], rank);
      var t := ResolveAll(c.idl, names[1..], rank, bound);
      if h.Some? && t.Some? {
        RenderAppend(c, pass, h.value, t.value);
      }
    }
  }

  // ---------------------------------------------------------------------
  // What each pass writes

  /** With every attribute named, the table callbacks write one entry per
      attribute, the i-th for the i-th attribute. */
  lemma {:induction false} TableOutputs(c: Context, attrs: seq<Attr>)
    requires forall i :: 0 <= i < |attrs| ==> attrs[i].ident.Some?
    ensures Filter(Outputs(c, TablePass, attrs), Entries) == Outputs(c, TablePass, attrs)
    ensures |Outputs(c, TablePass, attrs)| == |attrs|
    ensures forall i :: 0 <= i < |attrs| ==> Outputs(c, TablePass, attrs)[i] == TableCallback(c, attrs[i]).out[0]
  {
    if attrs != [] {
      TableOutputs(c, attrs[1..]);
      var e := TableCallback(c, attrs[0]).out;
      FilterAppend(e, Outputs(c, TablePass, attrs[1..]), Entries);
      assert Filter(e, Entries) == e by {
        assert e == [e[0]] && e[0].Entry?;
      }
      forall i | 1 <= i < |attrs|
        ensures Outputs(c, TablePass, attrs)[i] == TableCallback(c, attrs[i]).out[0]
      {
        assert attrs[1..][i - 1] == attrs[i];
      }
    }
  }

  lemma {:induction false} BodyOutputs(c: Context, attrs: seq<Attr>)
    ensures Filter(Outputs(c, BodyPass, attrs), Accessors) == IntendedAll(c, attrs)
  {
    if attrs != [] {
      BodyOutputs(c, attrs[1..]);
      BodyCallbackAccessors(c, attrs[0]);
      FilterAppend(BodyCallback(c, attrs[0]).out, Outputs(c, BodyPass, attrs[1..]), Accessors);
    }
  }

  /** The property table of a resolvable interface holds one entry for each
      reached attribute of each resolved fragment, in order: the own
      fragments, then the parent's, then the implemented interfaces'. Each
      entry is named by its attribute's identifier. */
  lemma PropertyTableEntries(c: Context, name: string, rank: string -> nat)
    requires Ranked(c.idl, rank) && Resolve(c.idl, name, rank).Some?
    ensures var es := Filter(Walk(c, TablePass, name, rank).out, Entries);
      var attrs := ReachedAll(Resolve(c.idl, name, rank).value);
      && |es| == |attrs|
      && forall i :: 0 <= i < |attrs| ==>
           es[i] == TableCallback(c, attrs[i]).out[0] && es[i].name == attrs[i].ident.value
  {
    var lfs := Resolve(c.idl, name, rank).value;
    WalkRendersResolution(c, TablePass, name, rank);
    RenderReaches(c, TablePass, lfs, Entries);
    TableOutputs(c, ReachedAll(lfs));
  }

  /** The body walk of a resolvable interface opens exactly the intended
      accessors of every reached attribute, in resolution order. */
  lemma PropertyBodyAccessors(c: Context, name: string, rank: string -> nat)
    requires Ranked(c.idl, rank) && Resolve(c.idl, name, rank).Some?
    ensures Filter(Walk(c, BodyPass, name, rank).out, Accessors) ==
      IntendedAll(c, ReachedAll(Resolve(c.idl, name, rank).value))
  {
    var lfs := Resolve(c.idl, name, rank).value;
    WalkRendersResolution(c, BodyPass, name, rank);
    RenderReaches(c, BodyPass, lfs, Accessors);
    BodyOutputs(c, ReachedAll(lfs));
  }

  /** Both walks write one marker per resolved fragment, naming the
      interface the fragment belongs to. */
  lemma WalkMarkers(c: Context, pass: Pass, name: string, rank: string -> nat)
    requires Ranked(c.idl, rank) && Resolve(c.idl, name, rank).Some?
    ensures Filter(Walk(c, pass, name, rank).out, Markers) == Labels(Resolve(c.idl, name, rank).value)
  {
    WalkRendersResolution(c, pass, name, rank);
    RenderMarkers(c, pass, Resolve(c.idl, name, rank).value);
  }

  /** Resolution order: the interface's own attributes (all fragments in
      document order), then its parent's, then each implemented interface's. */
  lemma ResolutionOrder(idl: Idl, name: string, rank: string -> nat)
    requires Ranked(idl, rank) && Resolve(idl, name, rank).Some?
    ensures FindInterface(idl, name).Some?
    ensures var iface := idl[FindInterface(idl, name).value];
      && (iface.parent.Some? ==> Resolve(idl, iface.parent.value, rank).Some?)
      && ResolveAll(idl, iface.implements, rank, rank(name)).Some?
      && ReachedAll(Resolve(idl, name, rank).value) ==
           ReachedAll(Label(name, iface.fragments))
           + (if iface.parent.Some? then ReachedAll(Resolve(idl, iface.parent.value, rank).value) else [])
           + ReachedAll(ResolveAll(idl, iface.implements, rank, rank(name)).value)
  {
    var iface := idl[FindInterface(idl, name).value];
    var inherited := if iface.parent.Some? then Resolve(idl, iface.parent.value, rank).value else [];
    var own := Label(name, iface.fragments);
    var mixins := ResolveAll(idl, iface.implements, rank, rank(name)).value;
    ReachedAllAppend(own + inherited, mixins);
    ReachedAllAppend(own, inherited);
  }

  /** An unknown interface fails with -1 and writes nothing. */
  lemma UnknownInterface(c: Context, pass: Pass, name: string, rank: string -> nat)
    requires Ranked(c.idl, rank) && FindInterface(c.idl, name).None?
    ensures Walk(c, pass, name, rank) == Gen(-1, [])
    ensures Resolve(c.idl, name, rank).None?
  {
  }

  /** When the parent does not resolve, the walk fails without visiting the
      implemented interfaces: it writes the own fragments and whatever the
      parent's walk wrote. */
  lemma FailedParentSkipsMixins(c: Context, pass: Pass, name: string, rank: string -> nat)
    requires Ranked(c.idl, rank) && FindInterface(c.idl, name).Some?
    requires var iface := c.idl[FindInterface(c.idl, name).value];
      iface.parent.Some? && Resolve(c.idl, iface.parent.value, rank).None?
    ensures var iface := c.idl[FindInterface(c.idl, name).value];
      Walk(c, pass, name, rank) ==
        Gen(-1, Render(c, pass, Label(name, iface.fragments)) + Walk(c, pass, iface.parent.value, rank).out)
  {
    var iface := c.idl[FindInterface(c.idl, name).value];
    WalkRendersResolution(c, pass, iface.parent.value, rank);
  }

  // ---------------------------------------------------------------------
  // The entry points

  /** output_property_spec always brackets the walk with header and footer;
      it succeeds exactly when the interface resolves, and then lists every
      reached attribute's entry in resolution order. */
  lemma PropertySpecTheorem(c: Context, rank: string -> nat)
    requires Ranked(c.idl, rank)
    ensures var g := PropertySpecOutput(c, rank);
      && g.out[0] == TableHeader && g.out[|g.out| - 1] == TableFooter
      && (g.status == 0 <==> Resolve(c.idl, c.interface, rank).Some?)
      && (g.status == 0 || g.status == -1)
    ensures Resolve(c.idl, c.interface, rank).Some? ==>
      var es := Filter(PropertySpecOutput(c, rank).out, Entries);
      var attrs := ReachedAll(Resolve(c.idl, c.interface, rank).value);
      && |es| == |attrs|
      && forall i :: 0 <= i < |attrs| ==> es[i] == TableCallback(c, attrs[i]).out[0]
  {
    var w := Walk(c, TablePass, c.interface, rank);
    WalkRendersResolution(c, TablePass, c.interface, rank);
    if Resolve(c.idl, c.interface, rank).Some? {
      PropertyTableEntries(c, c.interface, rank);
      FilterAppend([TableHeader], w.out, Entries);
      FilterAppend([TableHeader] + w.out, [TableFooter], Entries);
    }
  }

  /** output_property_body opens, on success, the intended accessors of every
      reached attribute followed by one setter/getter pair per type-handler
      override; on failure it returns -1 and runs no type-handler pass. */
  lemma PropertyBodyTheorem(c: Context, rank: string -> nat)
    requires Ranked(c.idl, rank)
    ensures var g := PropertyBodyOutput(c, rank);
      && (g.status == 0 <==> Resolve(c.idl, c.interface, rank).Some?)
      && (g.status != 0 ==> g == Walk(c, BodyPass, c.interface, rank) && g.status == -1)
    ensures Resolve(c.idl, c.interface, rank).Some? ==>
      Filter(PropertyBodyOutput(c, rank).out, Accessors) ==
        IntendedAll(c, ReachedAll(Resolve(c.idl, c.interface, rank).value)) + Pairs(HandlerKeys(c.spec.properties))
  {
    var w := Walk(c, BodyPass, c.interface, rank);
    WalkRendersResolution(c, BodyPass, c.interface, rank);
    if Resolve(c.idl, c.interface, rank).Some? {
      PropertyBodyAccessors(c, c.interface, rank);
      TypeHandlerOpenings(c, c.spec.properties);
      FilterAppend(w.out, TypeHandlers(c, c.spec.properties), Accessors);
    }
  }
}
