/**
 * The generated text as a stream of structured tokens, one per construct
 * the generator prints, in the order it prints them.
 */
module Output {
  import opened Wrappers
  import opened Genbind
  import opened TypeMap

  datatype PropFlag = Enumerate | Shared

  datatype Emit =
    | TableHeader                                   // "static JSPropertySpec jsclass_properties[] = {"
    | TableFooter                                   // "JSAPI_PS_END };"
    | Marker(iface: string)                         // "/**** iface ****/" before each LIST fragment
    | Entry(name: string, readonly: bool, slot: Option<string>, flags: set<PropFlag>)
                                                    // JSAPI_PS / JSAPI_PS_RO entry
    | SetterOpen(fn: string)                        // JSAPI_PROP_SETTER(fn, ...) {
    | GetterOpen(fn: string)                        // JSAPI_PROP_GETTER(fn, ...) {
    | Declare(native: NativeType, local: string, default: DefaultValue, note: Option<string>)
    | PrivatePrologue(iface: string)                // fetch private record, return JS_FALSE if absent
    | CopyCode(code: CodeBlock)                     // a binding-spec block copied verbatim
    | ReadInternal(field: string)                   // jsret = private->field;
    | Placeholder(iface: string, member: string)    // JSLOG("property iface.member has no implementation")
    | SetReturn(conv: Conversion, local: string)    // JSAPI_PROP_SET_RVAL(cx, vp, CONV(local))
    | ReturnTrue                                    // return JS_TRUE; }
    | ReturnFalse                                   // return JS_FALSE; }

  /** What a reader of the output picks out of it. */
  datatype View = Entries | Accessors | Markers

  predicate Shows(v: View, e: Emit) {
    match v
    case Entries => e.Entry?
    case Accessors => e.SetterOpen? || e.GetterOpen?
    case Markers => e.Marker?
  }

  /** The tokens of `out` that `v` shows, in order. */
  function Filter(out: seq<Emit>, v: View): seq<Emit> {
    if out == [] then []
    else (if Shows(v, out[0]) then [out[0]] else []) + Filter(out[1..], v)
  }

  lemma {:induction false} FilterAppend(a: seq<Emit>, b: seq<Emit>, v: View)
    ensures Filter(a + b, v) == Filter(a, v) + Filter(b, v)
  {
    if a == [] {
      assert a + b == b;
    } else {
      assert (a + b)[0] == a[0];
      assert (a + b)[1..] == a[1..] + b;
      FilterAppend(a[1..], b, v);
    }
  }
}
