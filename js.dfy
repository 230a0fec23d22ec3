/**
 * The JavaScript values the sync tool handles: front matter parsed from YAML
 * and the block trees produced by the markdown converter. Objects are ordered
 * key/value lists (see Assoc); functions, symbols and non-integer numbers do
 * not occur in those trees and are not modelled.
 */
module Js {
  import opened Wrappers
  import opened Assoc
  import Strings

  datatype Value =
    | Undefined
    | Null
    | Bool(b: bool)
    | Num(n: int)
    | Str(s: string)
    | Obj(fields: seq<Entry<Value>>)
    | Arr(items: seq<Value>)

  /** What `run` can throw. */
  datatype Exception =
    | FrontMatterEndNotFound   // "failed to find frontmatter end"
    | YamlError                // YAML.parse rejected the front matter
    | TypeError                // a property read on null/undefined, a call of a non-function, a write to a primitive
    | ApiError                 // the store rejected a request (unknown or archived page, unknown block, bad cursor)

  /** The truthiness JavaScript's `if (x)`, `!x` and `x || y` use. */
  predicate Truthy(v: Value) {
    match v
    case Undefined => false
    case Null => false
    case Bool(b) => b
    case Num(n) => n != 0
    case Str(s) => s != ""
    case _ => true
  }

  /** A primitive is everything that is neither an object nor an array. */
  predicate Primitive(v: Value) {
    !v.Obj? && !v.Arr?
  }

  /** `obj[k]` on an object: undefined when the key is missing. */
  function Get(fs: seq<Entry<Value>>, k: string): Value {
    FindOr(fs, k, Undefined)
  }

  /**
   * `v.k` for the keys the tool reads ("type", "paragraph", "rich_text", ...)
   * on a value that is not undefined or null (reading a property of those
   * throws a TypeError, which callers model); primitives and arrays have none
   * of these keys.
   */
  function Prop(v: Value, k: string): Value
    requires !v.Undefined? && !v.Null?
  {
    match v
    case Obj(fs) => Get(fs, k)
    case _ => Undefined
  }

  /** The string a template literal `${v}` produces. */
  function Show(v: Value): string {
    match v
    case Undefined => "undefined"
    case Null => "null"
    case Bool(b) => if b then "true" else "false"
    case Num(n) => Strings.IntToString(n)
    case Str(s) => s
    case Obj(_) => "[object Object]"
    case Arr(xs) => ShowItems(xs)
  }

  /** `Array.prototype.join(",")`: undefined and null elements print as nothing. */
  function ShowItems(xs: seq<Value>): string {
    if xs == [] then ""
    else
      var first := if xs[0].Undefined? || xs[0].Null? then "" else Show(xs[0]);
      if |xs| == 1 then first else first + "," + ShowItems(xs[1..])
  }

  /** Nesting depth of a value: the measure walks over a tree decrease. */
  function Height(v: Value): nat {
    match v
    case Obj(fs) => 1 + FieldsHeight(fs)
    case Arr(xs) => 1 + ItemsHeight(xs)
    case _ => 0
  }

  function FieldsHeight(fs: seq<Entry<Value>>): nat {
    if fs == [] then 0
    else
      var h := Height(fs[0].val);
      var t := FieldsHeight(fs[1..]);
      if h < t then t else h
  }

  function ItemsHeight(xs: seq<Value>): nat {
    if xs == [] then 0
    else
      var h := Height(xs[0]);
      var t := ItemsHeight(xs[1..]);
      if h < t then t else h
  }

  /** Every field value of an object is strictly lower than the object. */
  lemma {:induction false} FieldHeight(fs: seq<Entry<Value>>, i: nat)
    requires i < |fs|
    ensures Height(fs[i].val) <= FieldsHeight(fs)
  {
    if i > 0 {
      FieldHeight(fs[1..], i - 1);
      assert fs[1..][i - 1] == fs[i];
    }
  }

  lemma {:induction false} ItemHeight(xs: seq<Value>, i: nat)
    requires i < |xs|
    ensures Height(xs[i]) <= ItemsHeight(xs)
  {
    if i > 0 {
      ItemHeight(xs[1..], i - 1);
      assert xs[1..][i - 1] == xs[i];
    }
  }

  /** Reading a key never yields something higher than the object's fields. */
  lemma GetHeight(fs: seq<Entry<Value>>, k: string)
    ensures Height(Get(fs, k)) <= FieldsHeight(fs)
  {
    match Find(fs, k)
    case None =>
    case Some(v) =>
      var i :| 0 <= i < |fs| && fs[i] == Entry(k, v);
      FieldHeight(fs, i);
  }

  /** Writing a value raises the fields' height to at most that value's height. */
  lemma {:induction false} PutHeight(fs: seq<Entry<Value>>, k: string, x: Value)
    ensures FieldsHeight(Put(fs, k, x)) <= if FieldsHeight(fs) < Height(x) then Height(x) else FieldsHeight(fs)
  {
    if fs != [] && fs[0].key != k {
      PutHeight(fs[1..], k, x);
      assert Put(fs, k, x)[1..] == Put(fs[1..], k, x);
    } else if fs != [] {
      assert Put(fs, k, x)[1..] == fs[1..];
    }
  }
}
