/**
 * The slice of JavaScript plain-object semantics the analyser's grouping maps run into: a fresh
 * `{}` already answers every property name of `Object.prototype`.
 */
module JsObject {

  /** Assigning to this key on a plain object replaces the object's prototype instead of creating
      an own property, so `Object.values` never lists it. */
  const ProtoKey := "__proto__"

  /** Property names a fresh `{}` inherits from `Object.prototype`. Reading one yields a function
      (or, for `__proto__`, the prototype object): truthy, but without a `push` method. */
  const InheritedNames: set<string> := {
    "constructor", "__defineGetter__", "__defineSetter__", "hasOwnProperty",
    "__lookupGetter__", "__lookupSetter__", "isPrototypeOf", "propertyIsEnumerable",
    "toString", "valueOf", ProtoKey, "toLocaleString"
  }
}
