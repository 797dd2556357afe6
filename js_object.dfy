/**
 * Property lookup `obj[key]` on a plain object literal. A key the literal
 * does not define is still found when Object.prototype defines it, and
 * every such inherited member (a function, or the prototype object itself
 * for `__proto__`) is a truthy value that is neither a string nor a record
 * of the literal's shape.
 */
module JsObject {

  /** The members every plain object literal inherits from Object.prototype. */
  const ObjectPrototypeKeys: set<string> := {
    "constructor", "hasOwnProperty", "isPrototypeOf", "propertyIsEnumerable",
    "toLocaleString", "toString", "valueOf", "__proto__",
    "__defineGetter__", "__defineSetter__", "__lookupGetter__", "__lookupSetter__"
  }

  /** What `obj[key]` yields: the literal's own value, an inherited
      Object.prototype member, or `undefined`. */
  datatype Property<T> = Own(value: T) | Inherited(key: string) | Undefined

  function Get<T>(obj: map<string, T>, key: string): (r: Property<T>)
    ensures r.Own? <==> key in obj
    ensures r.Own? ==> r.value == obj[key]
    ensures r.Inherited? <==> key !in obj && key in ObjectPrototypeKeys
    ensures r.Inherited? ==> r.key == key
  {
    if key in obj then Own(obj[key])
    else if key in ObjectPrototypeKeys then Inherited(key)
    else Undefined
  }
}
