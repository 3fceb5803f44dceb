/** Shared vocabulary of the team service and the user service: nullable
    values, results that are either a value or a failure, the error codes
    the services raise, and the "blank string" test both services use. */
module Common {

  /** A Java reference that may be null. */
  datatype Option<T> = None | Some(value: T) {
    function GetOr(default: T): T {
      match this
      case Some(v) => v
      case None => default
    }
  }

  /** Either the new value or the failure the service throws; a failure
      leaves the store exactly as it was (the transaction rolls back). */
  datatype Result<T, E> = Success(value: T) | Failure(error: E)

  /** The error codes carried by the services' business exceptions. */
  datatype ErrorCode = ParamsError | NullError | NotLogin | NoAuth | SystemError

  /** Java's Character.isWhitespace on a single character: the ASCII
      controls TAB..CR and FS..US, and the Unicode space, line and paragraph
      separators other than the three no-break spaces. */
  predicate IsWhitespace(c: char) {
    var n := c as int;
    || n == 0x20
    || 0x09 <= n <= 0x0D
    || 0x1C <= n <= 0x1F
    || n == 0x1680
    || 0x2000 <= n <= 0x2006
    || 0x2008 <= n <= 0x200A
    || n == 0x2028
    || n == 0x2029
    || n == 0x205F
    || n == 0x3000
  }

  /** StringUtils.isBlank on a non-null string: empty or whitespace only. */
  predicate Blank(s: string) {
    forall i :: 0 <= i < |s| ==> IsWhitespace(s[i])
  }

  /** StringUtils.isBlank on a nullable string: null counts as blank. */
  predicate BlankOpt(o: Option<string>) {
    o.None? || Blank(o.value)
  }

  /** Java `==` on two Long objects boxed separately: they are the same
      object only when the values agree and lie in the range Long.valueOf
      caches, -128 to 127. */
  predicate BoxedSame(a: int, b: int) {
    a == b && -128 <= a <= 127
  }

  /** Java's String.length(): the number of UTF-16 code units, which is two
      for a character outside the Basic Multilingual Plane and one for any
      other. */
  function Utf16Length(s: string): (n: nat)
    ensures |s| <= n <= 2 * |s|
    ensures n == |s| <==> forall i :: 0 <= i < |s| ==> s[i] as int < 0x10000
    ensures n == 2 * |s| <==> forall i :: 0 <= i < |s| ==> s[i] as int >= 0x10000
  {
    if |s| == 0 then 0
    else
      var init := s[..|s| - 1];
      assert forall i :: 0 <= i < |init| ==> init[i] == s[i];
      Utf16Length(init) + (if s[|s| - 1] as int < 0x10000 then 1 else 2)
  }

  function Min(a: int, b: int): int {
    if a <= b then a else b
  }
}
