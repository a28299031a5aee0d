/** Character classes of JavaScript's regular expressions. */
module JsText {

  /** `\s`: white space and line terminators. */
  predicate IsSpace(c: char) {
    var n := c as int;
    || 0x09 <= n <= 0x0D || n == 0x20 || n == 0xA0 || n == 0x1680 || 0x2000 <= n <= 0x200A
    || n == 0x2028 || n == 0x2029 || n == 0x202F || n == 0x205F || n == 0x3000 || n == 0xFEFF
  }

  predicate All(t: string, p: char -> bool) { forall i :: 0 <= i < |t| ==> p(t[i]) }
}
