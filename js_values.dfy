/** Values of the JavaScript runtime that the two pipelines pass around. */
module JsValues {

  /** A value that may be absent (`undefined` / `null` in the source). */
  datatype Option<+T> = None | Some(value: T) {
    function GetOr(default: T): T {
      match this
      case Some(v) => v
      case None => default
    }
  }

  /** A JavaScript number as produced by `parseFloat`: NaN or a finite value. */
  datatype Num = NaN | Fin(x: real)

  /** The outcome of an operation that can throw: a value or the error message. */
  datatype Result<+R> = Success(value: R) | Failure(message: string)

  /** JavaScript's two "no value" values. */
  datatype Nullish = Undefined | Null {
    /** The text each one prints as. */
    function Name(): string {
      match this
      case Undefined => "undefined"
      case Null => "null"
    }
  }

  /**
   * `String(v)` for a string that may be absent: what a template string
   * `${v}` prints and what an object key `obj[v]` becomes. `absent` says
   * which of the two no-value values stands for None at the call site.
   */
  function JsString(v: Option<string>, absent: Nullish): string {
    match v
    case Some(s) => s
    case None => absent.Name()
  }

  /**
   * The conversion forgets exactly one distinction: an absent value and the
   * string that spells its name ("undefined" or "null") come out the same;
   * any two other values stay apart.
   */
  lemma JsStringCollisions(a: Option<string>, b: Option<string>, absent: Nullish)
    ensures JsString(a, absent) == JsString(b, absent) <==>
      a == b || (a == None && b == Some(absent.Name())) || (a == Some(absent.Name()) && b == None)
  {
  }
}
