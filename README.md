# aurelia-angular-loader, modelled in Dafny

aurelia-angular-loader lets AngularJS directives be used as Aurelia custom
elements. An Aurelia loader plugin receives an address. It reads an AngularJS
module name from that address. It then finds the module's element directives
and builds one Aurelia custom element per directive. Each element instance is
backed by an `AngularDirective` object. At bind time this object either
bootstraps Angular on the host element, or creates a one-off host module whose
bridge directive copies values between the Aurelia properties and an Angular
isolate scope.

The model covers the translation layer of `src/index.js`:

- `ScopeBindings`: the scope classifier (`getBindables`, `getScopeDefinition`). It models the regular expression `/([@=<&])(.+)?/` exactly. That includes JavaScript's line terminators, which `.` does not match.
- `Template`: the template emitter (`getTemplateHtml`) and the tag defect at its only call site.
- `Discovery`: the filter/map pipeline of `findDirectivesInModule` over a module's invoke queue. The injector is an abstract lookup.
- `Elements`: the bindable declarations of `createDirectiveCustomElement`, the element table of `getCustomElements`, and the loader's `fetch`, which takes the address's last `/` segment.
- `Bridge`: the `AngularDirective` class. Its state is the host properties, an abstract scope, a `linked` flag for the reassigned `attrChanged`, the watch list and `hostModuleName`. The module-level `hostId` counter is its own class.
- `Text`, `Seqs`, `Wrappers`: `split`, `join`, `filter`, number-to-string, `Option` and `Result`.

`hyphenate` (lodash.kebabcase) is a function-typed parameter `string -> string`, and nothing is assumed about it.

In three places the code does something other than what a plain reading of the design suggests. This model follows the code:

- A scope spec with no `@ = < &` gets type `undefined`, not `'@'`. The effect is the same one-way treatment: binding mode 1, no watch, no `()`.
- A directive name registered twice gives the *first* definition twice, because both lookups ask the injector for the same provider.
- A `bindToController` of `null` hides `scope`, because `typeof null` is `'object'`.

## Model

| member | source | states |
|---|---|---|
| `ScopeBindings.FindSymbol` | src/index.js:156 | the index the unanchored class `[@=<&]` matches at is the first symbol of the spec; None exactly when there is no symbol |
| `ScopeBindings.RunEnd` | src/index.js:156 | the greedy `(.+)` stops at the first line terminator or the end of the spec |
| `ScopeBindings.ClassifyWithSymbol` | src/index.js:156-157 | type is the first symbol; name is the text up to the next line terminator, or the key when that text is empty |
| `ScopeBindings.ClassifyWithoutSymbol` | src/index.js:156-157 | a spec with no symbol gives type undefined and the key as name |
| `ScopeBindings.ClassifySingleLine` | src/index.js:156-157 | on a spec without line terminators the name is everything after the first symbol, or the key |
| `ScopeBindings.ClassifyQuirks` | src/index.js:156-157 | `'=?'` yields name `'?'`; the match is unanchored; `'<'` after `'@'` is part of the alias; a newline right after the symbol leaves the key |
| `ScopeBindings.GetBindables` | src/index.js:153-161 | exactly one bindable per scope key, in key enumeration order, each the classification of its entry |
| `ScopeBindings.ScopeChoice` | src/index.js:51-55 | `bindToController` is used exactly when its typeof is 'object'; bindables are empty unless the chosen value is a non-null object |
| `Template.Expression` | src/index.js:170-173 | the attribute value is the bindable name, extended by `()` exactly when its type is '&' |
| `Template.TemplateFrame` | src/index.js:178 | the template opens with `<tag ` and closes with `></tag>` |
| `Template.TemplateAttributeAt` | src/index.js:169-178 | each bindable's `hyphenate(name)="expr"` appears whole in the template at its computed position |
| `Template.TemplateAttributesInOrder` | src/index.js:169-178 | the attributes follow one another in bindable order, and the one character between consecutive attributes is a space |
| `Template.TemplateClose` | src/index.js:178 | `></tag>` comes right after the last attribute; with no bindables the template is `<tag ></tag>`, of length 2·\|tag\| + 6 |
| `Template.BridgeTemplate` | src/index.js:168-178 | the corrected template opens and closes with the element's own name |
| `Template.BridgeTemplateMissesElement` | src/index.js:147 | as called, the template differs from the intended one for every element not named `undefined` |
| `Template.BridgeTemplateExample` | src/index.js:147 | as called for `user-card`, the template is `<undefined value="value"></undefined>` |
| `Discovery.DirectiveNamesAppend` | src/index.js:32-35 | the names are those of the 'directive' instructions, in queue order |
| `Discovery.Resolve` | src/index.js:36 | all names resolve, pointwise through the injector, or the first unresolvable one throws its provider error |
| `Discovery.Discovered` | src/index.js:32-37 | every result is an element directive resolved from a directive registration, and every such element directive is in the result |
| `Discovery.DiscoveryAppend` | src/index.js:32-37 | discovery keeps queue order: the result for a concatenated queue is the concatenation of the results |
| `Discovery.DiscoveryDropsAttributeDirective` | src/index.js:37 | of a restrict 'EA' and a restrict 'A' directive only the first is returned |
| `Discovery.DiscoveryRepeatsFirstDefinition` | src/index.js:34-36 | a name registered twice yields its first definition twice; non-directive instructions are skipped |
| `Discovery.DiscoveryUnknownProvider` | src/index.js:36 | a registration the injector cannot resolve throws for provider `<name>Directive` |
| `Elements.BindableProperties` | src/index.js:59-65 | one declaration per bindable, in order, with the name, attribute hyphenate(name), change handler 'attrChanged', mode 2 exactly for '=' and 1 otherwise |
| `Elements.CreateDirectiveCustomElement` | src/index.js:50-72 | the element keeps the given element and module names, with the declared bindables and one property per bindable |
| `Elements.UserCardElement` | src/index.js:50-65 | `{name: '@', onSelect: '&', active: '='}` gives three bindables in order, with modes 1, 1, 2 |
| `Elements.GetCustomElements` | src/index.js:40-48 | the loop builds the element table: each definition stored under its hyphenated name, in order |
| `Elements.ElementTableKeys` | src/index.js:42-45 | the table's keys are exactly the hyphenated directive names |
| `Elements.ElementTableLastWins` | src/index.js:42-45 | under a name, the table holds the element of the last definition with that hyphenated name |
| `Elements.LoaderModuleName` | src/index.js:13 | the module name contains no '/', is a suffix of the address, and follows a '/' unless it is the whole address |
| `Elements.LoadedElements` | src/index.js:13-24 | every loaded element belongs to the addressed module and comes from a discovered element directive under its hyphenated name |
| `Elements.Fetch` | src/index.js:8-24 | fetch loads the element table of the module named by the address, or throws the lookup error |
| `Text.JoinSplit` | src/index.js:13 | joining the pieces of `split('/')` with '/' gives back the address |
| `Text.LastSegmentIsTail` | src/index.js:13 | `split('/').slice(-1)[0]` is the text after the last '/' |
| `Text.DecimalStringInjective` | src/index.js:104 | distinct counter values print as distinct numerals |
| `Bridge.HostModuleNamesDistinct` | src/index.js:104 | distinct ids give distinct `aureliaHost<id>` names |
| `Bridge.HostIdCounter.Next` | src/index.js:104 | `hostId++` returns the current id, increments the counter, and never returns an id handed out before |
| `Bridge.AngularDirective.constructor` | src/index.js:77-84 | a new instance is unlinked, with `attrChanged` still a no-op and no host module |
| `Bridge.AngularDirective.GetBoundValues` | src/index.js:115-122 | exactly the bindable names, each mapped to the host's current value |
| `Bridge.AngularDirective.Bind` | src/index.js:86-109 | without bindables: bootstrap the host element and leave the counter alone; with bindables: take the next id, whose name differs from every earlier one, bootstrap the bridge, and link |
| `Bridge.AngularDirective.Link` | src/index.js:128-146 | copies all bound values into the scope, makes attrChanged live, and watches exactly the '=' names |
| `Bridge.AngularDirective.AttrChanged` | src/index.js:132-136 | a no-op before link; after link, every bindable's host value lands in the scope and nothing else in the scope changes |
| `Bridge.AngularDirective.WatchFire` | src/index.js:139-145 | after link, only a watched '=' name whose new value differs from the old one is written back to the host |
| `Bridge.AssignBound` | src/index.js:129 | `Object.assign` puts each bindable's host value into the scope and keeps every other scope property |
| `Bridge.WriteBack` | src/index.js:140-144 | the listener changes the host only at a two-way name and only when new !== old |
| `Bridge.WatchedIffTwoWay` | src/index.js:64 | a name is watched exactly when some bindable with that name is declared with the two-way binding mode |
| `Bridge.WriteBackOfCopyIsIdentity` | src/index.js:132-144 | a host value copied into the scope and watched back out leaves the host unchanged |

## Left out

- `angular.module`, `angular.injector` and `angular.bootstrap` are not modelled as code. A module is its invoke queue plus an injector lookup, and a bootstrap is a record of what bind asked for.
- `unbind` and `$rootScope.$destroy` are not modelled: they are calls into AngularJS. On the whole-element path `hostModuleName` is still undefined when `unbind` runs.
- The `$apply` digest is not modelled. `Bridge.AngularDirective.WatchFire` receives the listener's new and old values as parameters rather than reading them from a digest.
- The DOM (`document.createElement`, `appendChild`, the injected `Element`) is left out as I/O.
- The Aurelia decorators (`decorators`, `noView`, `customElement`, `bindable`) and `aurelia.loader.addPlugin` are left out. Their outputs are the `CustomElement` and `BindableProperty` records.
- lodash.kebabcase is not part of this model. `hyphenate` is an uninterpreted parameter, with no claim of idempotence or of any output.
- Re-entrancy between Aurelia observation and the Angular digest is left out. The code has no guard to state a property of.
- The order of a scope object's keys is taken as given. `for...in` puts integer-like keys first and visits inherited enumerable properties; neither is modelled.
- Scope spec values are strings. The string conversion `exec` applies to other values is not modelled.
- Registrations made through the object form `directive({...})` are not modelled: an instruction's first argument is a name.
- `injector.get(...)[0]` is a lookup that returns the first definition. `restrict` is a string.
- JavaScript numbers are integers here. `hostId` is unbounded, so its precision limit above 2^53 is not modelled.
- Scope values are compared with Dafny equality, which stands for `!==` except on NaN.
- If bind runs again without unbind, the watchers on the earlier bridge scope stay alive and can still write back. The model tracks only the latest bridge scope.
- Bridge.AngularDirective.Link: assumes every `'='` name parses as an AngularJS expression, so `$scope.$watch(name, …)` always registers a watch. A spec such as `'=?'` gives the name `?`, on which AngularJS's `$parse` throws. Link then stops after making `attrChanged` live, and that name and every later `'='` name go unwatched. The model does not capture that partial watch list.
- Bridge.AngularDirective.Bind: its `watchers == TwoWayNames(bindables)` holds only under the same assumption about `$watch`.
- Bridge.AngularDirective.Bind: records the bridge template as the code builds it (see Findings). It does not model what Angular renders from that template.

## Findings

| source | as written | input that shows it | evidently intended | confidence | as-written member | corrected member |
|---|---|---|---|---|---|---|
| src/index.js:147 | `getTemplateHtml({ elementName, bindables })` is called, but getTemplateHtml (line 168) reads `name`, so the tag is `undefined` | element `user-card` with bindable `value` ('='): template `<undefined value="value"></undefined>` | the template names the directive's element: `<user-card value="value"></user-card>` | high, not executed | `Template.BridgeTemplateExample` | `Template.BridgeTemplate` |

`Template.BridgeTemplateAsWritten` models the call as written. `Template.BridgeTemplateMissesElement` shows that it differs from the intended template for every element not named `undefined`. `Bridge.AngularDirective.Bind` keeps the as-written template, because it models what bind does.
