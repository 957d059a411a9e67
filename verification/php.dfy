/** The few PHP language rules the module's logic depends on: truthiness and `trim()`. */
module Php {

  /** A string is truthy in PHP unless it is "" or "0" (the same strings `empty()` accepts). */
  predicate StringTruthy(s: string) {
    s != "" && s != "0"
  }

  /** A scalar form value: checkbox values are the option key or the integer 0. */
  datatype Scalar = Str(s: string) | Int(i: int)

  predicate Truthy(v: Scalar) {
    match v
    case Str(s) => StringTruthy(s)
    case Int(i) => i != 0
  }

  /** The characters `trim()` strips by default: space, tab, newline, carriage return, NUL, vertical tab. */
  predicate IsTrimChar(c: char) {
    c == ' ' || c == '\t' || c == '\n' || c == '\r' || c == '\0' || c == 11 as char
  }

  predicate AllTrimChars(s: string) {
    forall i :: 0 <= i < |s| ==> IsTrimChar(s[i])
  }

  /** Neither end of `s` is a trim character. */
  predicate IsTrimmed(s: string) {
    s == [] || (!IsTrimChar(s[0]) && !IsTrimChar(s[|s| - 1]))
  }

  /**
   * `trim()`: strips the trim characters from the front, then from the back,
   * one at a time.
   */
  function Trim(s: string): (r: string)
    ensures IsTrimmed(r)
    ensures r == [] <==> AllTrimChars(s)
    decreases |s|
  {
    if s != [] && IsTrimChar(s[0]) then
      var r := Trim(s[1..]);
      assert r == [] ==> AllTrimChars(s) by {
        if r == [] { assert s == [s[0]] + s[1..]; }
      }
      r
    else if s != [] && IsTrimChar(s[|s| - 1]) then
      Trim(s[..|s| - 1])
    else
      s
  }

  /** `trim()` returns the middle of its argument: what it drops on either side is all trim characters. */
  lemma TrimDecompose(s: string)
    ensures |Trim(s)| <= |s|
    ensures exists i :: (0 <= i <= |s| - |Trim(s)| && Trim(s) == s[i..i + |Trim(s)|]
      && AllTrimChars(s[..i]) && AllTrimChars(s[i + |Trim(s)|..]))
  {
    var i := TrimOffset(s);
  }

  /** Where the result of `trim()` starts in its argument. */
  lemma {:induction false} TrimOffset(s: string) returns (i: nat)
    ensures |Trim(s)| <= |s| && i <= |s| - |Trim(s)|
    ensures Trim(s) == s[i..i + |Trim(s)|]
    ensures AllTrimChars(s[..i]) && AllTrimChars(s[i + |Trim(s)|..])
    decreases |s|
  {
    if s != [] && IsTrimChar(s[0]) {
      var j := TrimOffset(s[1..]);
      i := j + 1;
      ShiftFront(s, j, |Trim(s)|);
    } else if s != [] && IsTrimChar(s[|s| - 1]) {
      i := TrimOffset(s[..|s| - 1]);
      ShiftBack(s, i, |Trim(s)|);
    } else {
      i := 0;
      assert s[i..i + |s|] == s;
    }
  }

  /** Putting a trim character back in front moves the middle one place right. */
  lemma ShiftFront(s: string, j: nat, n: nat)
    requires s != [] && IsTrimChar(s[0]) && j + n <= |s| - 1
    requires AllTrimChars(s[1..][..j]) && AllTrimChars(s[1..][j + n..])
    ensures s[1..][j..j + n] == s[j + 1..j + 1 + n]
    ensures AllTrimChars(s[..j + 1]) && AllTrimChars(s[j + 1 + n..])
  {
  }

  /** Putting a trim character back at the end leaves the middle where it was. */
  lemma ShiftBack(s: string, i: nat, n: nat)
    requires s != [] && IsTrimChar(s[|s| - 1]) && i + n <= |s| - 1
    requires AllTrimChars(s[..|s| - 1][..i]) && AllTrimChars(s[..|s| - 1][i + n..])
    ensures s[..|s| - 1][i..i + n] == s[i..i + n]
    ensures AllTrimChars(s[..i]) && AllTrimChars(s[i + n..])
  {
  }

  /** A string whose ends are not trim characters is its own `trim()`. */
  lemma TrimTrimmed(s: string)
    requires IsTrimmed(s)
    ensures Trim(s) == s
  {
  }

  /** Leading trim characters make no difference to `trim()`. */
  lemma {:induction false} TrimDropLeft(left: string, s: string)
    requires AllTrimChars(left)
    ensures Trim(left + s) == Trim(s)
    decreases |left|
  {
    if left != [] {
      assert (left + s)[0] == left[0];
      assert (left + s)[1..] == left[1..] + s;
      TrimDropLeft(left[1..], s);
    } else {
      assert left + s == s;
    }
  }

  /** Trailing trim characters make no difference to `trim()` once the front is clean. */
  lemma {:induction false} TrimDropRight(s: string, right: string)
    requires AllTrimChars(right)
    requires s == [] || !IsTrimChar(s[0])
    ensures Trim(s + right) == Trim(s)
    decreases |right|
  {
    if s == [] {
      assert s + right == right;
    } else if right != [] {
      var shorter := right[..|right| - 1];
      assert (s + right)[0] == s[0];
      assert (s + right)[|s + right| - 1] == right[|right| - 1];
      assert (s + right)[..|s + right| - 1] == s + shorter;
      TrimDropRight(s, shorter);
    } else {
      assert s + right == s;
    }
  }

  /** `trim()` removes exactly the padding around a string whose ends are not trim characters. */
  lemma TrimPadding(left: string, s: string, right: string)
    requires AllTrimChars(left) && AllTrimChars(right)
    requires IsTrimmed(s)
    ensures Trim(left + s + right) == s
  {
    assert left + s + right == left + (s + right);
    TrimDropLeft(left, s + right);
    TrimDropRight(s, right);
    TrimTrimmed(s);
  }

  /** Trimming twice is trimming once. */
  lemma TrimIdempotent(s: string)
    ensures Trim(Trim(s)) == Trim(s)
  {
  }
}
