# nsgenbind property generation, modelled in Dafny

nsgenbind turns a WebIDL description of a DOM interface and a binding
specification into C source for a JavaScript engine binding. This project
models the property-generation pass (`src/jsapi-libdom-property.c`). It
writes two things to the binding's output file:

- the property table (`output_property_spec`): one `JSAPI_PS`/`JSAPI_PS_RO`
  entry per attribute, between a table header and a `JSAPI_PS_END` footer;
- the accessor bodies (`output_property_body`): a setter and a getter per
  attribute, followed by one setter/getter pair per type-handler override.

Both passes walk an interface in the same way. They visit the interface's
LIST fragments (partial interfaces) in document order, each preceded by a
`/**** name ****/` marker. Then they recurse into the inheritance parent.
Then, if that succeeded, they visit each `implements` interface.

Modules, one file each:

- `Wrappers`: `Option`.
- `WebIdl`: the WebIDL tree the generator reads. Attributes have an
  optional identifier, optional type name, base type, unsigned flag and
  readonly flag. `FindInterface` looks an interface up by name. `Ranked`
  says the parent/implements graph is acyclic.
- `Genbind`: the binding-specification tree. It holds BINDING_PROPERTY
  overrides, GETTER/SETTER code blocks and BINDING_INTERNAL fields. `Find`
  is first-match lookup by identifier. The module also holds the modifier
  constants.
- `TypeMap`: the two type switches, `output_return_declaration` and
  `output_return`, with a reference mapping from native type to conversion
  and default.
- `Output`: the output stream as structured tokens (`Emit`). `Filter` picks
  out table entries, opened accessors or fragment markers.
- `Property`: the callbacks of both passes, the getter and setter, the
  type-handler pass, and the shared walk. `Walk` and `MixinWalk` specify
  both passes.
- `Resolution`: an independent reference. `Resolve` gives an interface's
  effective fragment list: its own, then its parent's, then each
  implemented interface's. The theorems show both passes write exactly what
  that list calls for.
- `Generator`: the imperative code. `class Binding` holds the `outfile`
  sink and the two entry points that append to it. The fragment loop, the
  for-each loops and the recursion are methods with loop invariants, each
  proved equal to the specification functions.
- `Scenarios`: worked examples. `interface Foo { readonly long count; }`,
  `interface Bar : Foo {}`, and a type name marked unshared.

Assumptions, each made because the definition is not in the modelled files:

- The values of `enum genbind_type_modifier` are NONE = 0, TYPE = 1,
  UNSHARED = 2 and TYPE_UNSHARED = 3. So the `& GENBIND_TYPE_TYPE` tests
  are the low bit, `HasTypeBit`.
- `genbind_node_getint`/`webidl_node_getint` on a missing node count as "no
  modifier". So an override without MODIFIER is NONE in the type-handler
  pass (:793-796); resolution tests for the node itself (:47-56). An
  attribute without MODIFIER is not readonly.
- `webidl_node_getint` on a missing TYPE_BASE node (:246, :353) gives a value
  that none of the switch cases names. So an attribute without a base type
  is `Unrecognised`: no declaration and no conversion.
- Looking up an override by a missing (NULL) type name finds nothing.
- `*_find_type_ident` returns the first match, and `*_for_each_type` visits
  children in order, stops at the first non-zero return and returns that
  value (0 when every callback returns 0).

The per-attribute setter (`output_property_setter`,
src/jsapi-libdom-property.c:550-578) never looks up a SETTER block, unlike
the type-handler setter at :724-732. It writes a body that only returns
`JS_FALSE`.

## Model

| member | source | states |
|---|---|---|
| Genbind.Find | src/jsapi-libdom-property.c:31-34 | Finds the first override/block keyed by the identifier. None exactly when no node has that key. |
| WebIdl.FindInterface | src/jsapi-libdom-property.c:162-171 | Finds the first interface with the given name. None exactly when no interface has it. |
| Property.SharedModifier | src/jsapi-libdom-property.c:24-57 | An identifier-keyed override decides, even when it has no MODIFIER (then NONE). Only without one does the first type-keyed override decide. With neither, NONE. |
| Property.TableCallback | src/jsapi-libdom-property.c:59-142 | No identifier: -1 and nothing written. Otherwise one entry named by the identifier, `_RO` iff readonly, ENUMERATE always, SHARED iff the modifier is not UNSHARED/TYPE_UNSHARED. The slot is the type name for TYPE/TYPE_UNSHARED and the identifier for any other value. |
| TypeMap.DeclarationMatchesConversion | src/jsapi-libdom-property.c:230-456 | The two switches agree. A type is declared iff it is converted. Exactly byte, octet, long long, sequence and Date are unsupported in both. Exactly void and unknown types map to nothing. The conversion fits the declared native type, and the default is that type's zero. |
| TypeMap.IntegerSignedness | src/jsapi-libdom-property.c:388-427 | short and long declare 16- and 32-bit integers, unsigned exactly when the type has the unsigned modifier. |
| TypeMap.UnsignedOnlyForIntegers | src/jsapi-libdom-property.c:335-456 | The unsigned modifier changes the declaration of no other type. |
| Property.GetterSource | src/jsapi-libdom-property.c:505-539 | The getter's value comes from the GETTER block keyed by the identifier if there is one, else from a BINDING_INTERNAL field of that name, else from a placeholder. |
| Property.GetterShape | src/jsapi-libdom-property.c:477-548 | A getter opens one accessor named by the identifier. Then, in this order: it declares `jsret` with the type's native type and default iff the type has a declaration; it fetches the private record iff the class has private data; it takes the value from the chosen source; it converts `jsret` iff the type has a conversion. It ends by returning `JS_TRUE`. |
| Property.BodyCallbackAccessors | src/jsapi-libdom-property.c:580-624 | The body callback opens no accessors for an unnamed attribute or under a type handler. Otherwise it opens a setter unless readonly, then a getter, all named by the identifier. |
| Property.BodyCallback | src/jsapi-libdom-property.c:590-623 | The body callback fails with -1 and writes nothing exactly when the attribute has no identifier. Under the TYPE bit it writes nothing. Otherwise it writes the setter, then the getter. |
| Property.ReadonlyHasNoSetter | src/jsapi-libdom-property.c:550-566 | A readonly attribute never gets a setter. |
| Property.WritableSetterFails | src/jsapi-libdom-property.c:567-578 | A writable attribute without a type handler gets a setter whose body only returns `JS_FALSE`, followed by its getter. |
| Property.TableAgreesWithBodies | src/jsapi-libdom-property.c:96-139 | For the four modifier values, the table slot names the type exactly when the body pass writes no accessors of the attribute's own. |
| Property.BlockFor | src/jsapi-libdom-property.c:724-731 | The block copied is the first one keyed by the identifier. None exactly when no block has that key. |
| Property.TypeAccessorShape | src/jsapi-libdom-property.c:699-781 | A type-handler accessor opens the requested setter or getter and fetches the private record iff the class has private data. It copies exactly the first block keyed by the override's identifier, or none when there is none, and returns `JS_TRUE`. |
| Property.TypeHandlerBlocks | src/jsapi-libdom-property.c:784-815 | An override with the TYPE bit and an identifier gets a setter named by it that copies the first SETTER block with that key, then a getter that copies the first GETTER block with that key. Any other override gets nothing. |
| Property.TypeHandlerOpenings | src/jsapi-libdom-property.c:784-815 | The type-handler pass opens one setter then one getter for each override with the TYPE bit and an identifier, in override order, each named by that identifier, and nothing else. |
| Property.TypeSlotHasHandler | src/jsapi-libdom-property.c:116-137 | An attribute governed by a type-keyed TYPE/TYPE_UNSHARED override gets a slot naming the type and no accessors of its own. The type-handler pass writes a setter and a getter of that name. |
| Property.Walk | src/jsapi-libdom-property.c:154-212 | Either pass returns 0 or -1. |
| Property.MixinWalk | src/jsapi-libdom-property.c:197-209 | The implements for-each returns 0 or -1. |
| Resolution.AttributeWalkReaches | src/jsapi-libdom-property.c:183-186 | The for-each over a fragment writes the callbacks' output for the attributes up to the first unnamed one. It fails exactly when some attribute is unnamed. |
| Resolution.WalkRendersResolution | src/jsapi-libdom-property.c:154-212 | A walk succeeds iff the interface and everything it reaches resolve, and fails with -1 otherwise. On success it writes, per resolved fragment in order, a marker and the fragment's output. |
| Resolution.MixinWalkRendersResolution | src/jsapi-libdom-property.c:146-151 | The implements walk succeeds iff every implemented interface resolves. On success it writes their renderings in child order. |
| Resolution.ResolutionOrder | src/jsapi-libdom-property.c:178-209 | An interface's attributes are its own fragments' in document order, then its parent's, then each implemented interface's. |
| Resolution.PropertyTableEntries | src/jsapi-libdom-property.c:154-212 | The table walk of a resolvable interface writes exactly one entry per reached attribute, in resolution order, each named by that attribute's identifier. |
| Resolution.PropertyBodyAccessors | src/jsapi-libdom-property.c:639-697 | The body walk of a resolvable interface opens exactly the intended accessors of every reached attribute, in resolution order. |
| Resolution.WalkMarkers | src/jsapi-libdom-property.c:180-182 | Both walks write one marker per resolved fragment, naming the interface the fragment belongs to. |
| Resolution.UnknownInterface | src/jsapi-libdom-property.c:161-171 | An unknown interface fails with -1 and writes nothing. |
| Resolution.FailedParentSkipsMixins | src/jsapi-libdom-property.c:199-211 | When the parent fails, the implemented interfaces are not visited and the walk returns -1. |
| Resolution.PropertySpecTheorem | src/jsapi-libdom-property.c:214-228 | The table always starts with the header and ends with the footer. It succeeds iff the interface resolves, and then lists every reached attribute's entry in order. |
| Resolution.PropertyBodyTheorem | src/jsapi-libdom-property.c:817-833 | On success the body opens the intended accessors in resolution order, then the type-handler pairs. On failure it returns -1 and runs no type-handler pass. |
| Generator.Generate | src/jsapi-libdom-property.c:154-212 | The fragment loop and the recursion write exactly what `Walk` specifies and return its status, for both passes. |
| Generator.ForEachAttribute | src/jsapi-libdom-property.c:183-186 | The for-each over one fragment writes and returns what `AttributeWalk` specifies, stopping at the first failing callback. |
| Generator.ForEachImplements | src/jsapi-libdom-property.c:146-151 | The for-each over implemented interfaces writes and returns what `MixinWalk` specifies. |
| Generator.ForEachTypeHandler | src/jsapi-libdom-property.c:823-830 | The loop over BINDING_PROPERTY overrides writes the type-handler pass and returns 0. |
| Generator.Binding.OutputPropertySpec | src/jsapi-libdom-property.c:214-228 | Appends to `outfile` exactly the bracketed table and returns the walk's status. |
| Generator.Binding.OutputPropertyBody | src/jsapi-libdom-property.c:817-833 | Appends to `outfile` exactly the body walk, then, on success, the type handlers, and returns the status. |
| Scenarios.FooScenario | src/jsapi-libdom-property.c:59-142 | `interface Foo { readonly long count; }` with no overrides: one shared, enumerable, read-only entry stored under `count`. The body has no setter, and a getter that declares a zeroed 32-bit local, logs a placeholder, converts the integer and returns success. |
| Scenarios.BarScenario | src/jsapi-libdom-property.c:178-202 | `interface Bar : Foo {}`, which owns one empty LIST fragment, resolves to that fragment and then `Foo`'s. Its table has `Bar`'s marker with nothing under it, then `Foo`'s marker and the `count` entry. |
| Scenarios.UnsharedTypeScenario | src/jsapi-libdom-property.c:38-44 | A type-keyed UNSHARED override applies when no override names the attribute, and the entry loses SHARED. |

## Left out

- src/genjsbind.c (command-line driver) and src/jsapi-binding.c (opening and closing the output file, header comments) are not part of this model. They are process and file plumbing.
- The exact C text is abstracted to `Emit` tokens, one per construct written. Code blocks are opaque values that are copied, because `output_code_block` is not part of this model.
- Diagnostics on stderr are not modelled as output. These are the `WARN` messages (unsupported types, missing implementations) and the "Unable to find interface" message (:167-169, :652-654). An unsupported type is `Unsupported` in `TypeMap` and writes nothing. An unknown interface is the -1 status.
- TypeMap.ReturnDeclaration: `output_return_declaration` and `output_return` always return 0. Their status is not modelled, because no caller looks at it.
- Property.BodyCallback: when the TYPE bit is set, the C returns an uninitialised `ret` (:587, :616-623). The model assumes that value is 0. `webidl_node_for_each_type` stops at the first non-zero callback result, so a non-zero garbage value would end the body pass for the rest of that fragment. Resolution.AttributeWalkReaches, Resolution.PropertyBodyAccessors and Resolution.PropertyBodyTheorem hold for the body pass only under this assumption.
- Property.Walk: the precondition `Ranked` requires a rank that decreases along every parent and implements reference of every interface in the tree. Not only those reachable from the walk's start are covered. So it excludes every tree with a cycle anywhere, including trees on which the C terminates: a cycle the walk never reaches, or one it would reach only after a parent that fails (the walk then returns -1 at :199-204 first). On a cycle the walk does reach, the C recurses without end.
- Generator.Generate: each walking method returns the text it writes, and `Binding` appends it to `outfile` in one step. The C writes it piece by piece. Nothing reads the file in between, so the final contents and their order are the same.
- BINDING_INTERNAL fields are taken from the first BINDING node only, as the code does. GETTER and SETTER blocks are searched over the whole tree.
- The `"(null)"` that `printf` would print for a missing type name in a TYPE slot is kept as an absent slot (`None`).
