/**
 * The values the loader reads from AngularJS: directive definition objects,
 * the JavaScript values their `scope` and `bindToController` options hold,
 * and a module's registration queue with its injector.
 */
module Ng {
  import opened Wrappers

  /** One property `key: 'spec'` of a scope declaration object. */
  datatype Entry = Entry(key: string, spec: string)

  /**
   * A JavaScript value as far as `typeof` and truthiness go. An object is
   * given by its enumerable properties in `for...in` order.
   */
  datatype JsValue =
    | Undefined
    | Null
    | Boolean(b: bool)
    | Number(n: int)
    | String(s: string)
    | Object(entries: seq<Entry>)
    | Function

  /** JavaScript's `typeof`. */
  function TypeOf(v: JsValue): string
  {
    match v
    case Undefined => "undefined"
    case Null => "object"
    case Boolean(_) => "boolean"
    case Number(_) => "number"
    case String(_) => "string"
    case Object(_) => "object"
    case Function => "function"
  }

  /** JavaScript's truthiness. */
  predicate Truthy(v: JsValue)
  {
    match v
    case Undefined => false
    case Null => false
    case Boolean(b) => b
    case Number(n) => n != 0
    case String(s) => s != ""
    case Object(_) => true
    case Function => true
  }

  /** The parts of a directive definition object that the loader reads. */
  datatype Directive = Directive(name: string, restrict: string, bindToController: JsValue, scope: JsValue)

  /** An entry `[provider, call, [name, ...]]` of a module's `_invokeQueue`. */
  datatype Instruction = Instruction(provider: string, call: string, name: string)

  /**
   * A registered AngularJS module: its registration queue and the injector
   * `angular.injector(['ng', name])` builds for it. `injector(p)` is the first
   * definition of `injector.get(p)`, and `None` when no provider `p` exists.
   */
  datatype Module = Module(invokeQueue: seq<Instruction>, injector: string -> Option<Directive>)
}
