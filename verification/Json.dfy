/** JSON values, whose objects have no member order. */
module Json {
  import opened Utf16

  /** A JavaScript string. */
  type JsString = seq<CodeUnit>

  /** Numbers are integers: contract terms may not contain any others. */
  datatype Json =
    | Null
    | Bool(b: bool)
    | Num(n: int)
    | Str(s: JsString)
    | Arr(items: seq<Json>)
    | Obj(members: map<JsString, Json>)

  /** The code units of a text in the basic multilingual plane. */
  function Ascii(text: string): (s: JsString)
    requires forall i :: 0 <= i < |text| ==> text[i] as int < 0x10000
    ensures |s| == |text|
  {
    seq(|text|, i requires 0 <= i < |text| => text[i] as int)
  }

  function Digits(n: nat): JsString {
    if n < 10 then [48 + n] else Digits(n / 10) + [48 + n % 10]
  }

  function NumberText(n: int): JsString {
    if n < 0 then [45] + Digits(-n) else Digits(n)
  }

  /** What a JavaScript condition makes of a value. */
  predicate Truthy(j: Json) {
    match j
    case Null => false
    case Bool(b) => b
    case Num(n) => n != 0
    case Str(s) => s != []
    case Arr(_) => true
    case Obj(_) => true
  }
}
