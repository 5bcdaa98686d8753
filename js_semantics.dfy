/** The few pieces of JavaScript semantics the calorie endpoint relies on:
    the values a JSON request body can hold, truthiness, `Number(...)`,
    `String.prototype.toLowerCase`, `String.prototype.trim` and `Math.round`.
    Numbers are idealised as exact reals; strings are sequences of Unicode
    scalar values. */
module JsSemantics {

  /** A value that may be absent: a JSON field that serialises to `null`, or a
      conversion that throws. */
  datatype Option<T> = None | Some(value: T)

  /** A field read from a parsed JSON request body. `Undefined` is a field the
      body does not have. `Composite` is an array or an object. It carries the
      primitive JavaScript converts it to on the way to a number: the `valueOf`
      of an array or a plain object is the value itself, so the conversion
      falls back to `toString`, which gives the elements joined by commas or
      "[object Object]". JSON cannot hold a function, so an object with an own
      `toString` key, or an array that holds one at any depth, has no callable
      method left and the conversion throws a TypeError: `None`. */
  datatype JsonValue =
    | Undefined
    | Null
    | Boolean(b: bool)
    | Number(n: real)
    | Text(s: string)
    | Composite(primitive: Option<string>)

  /** The outcome of a JavaScript numeric conversion: a finite value, or one of
      NaN, +Infinity and -Infinity, all three of which serialise to JSON `null`
      and stay non-finite under every operation the endpoint applies. */
  datatype JsNumber = Finite(value: real) | NonFinite

  /** JavaScript's ToBoolean on the values a JSON body can hold: `undefined`,
      `null`, `false`, `0` and `""` are falsy, everything else is truthy. */
  predicate Truthy(v: JsonValue) {
    match v
    case Undefined => false
    case Null => false
    case Boolean(b) => b
    case Number(n) => n != 0.0
    case Text(s) => s != ""
    case Composite(_) => true
  }

  /** JavaScript's `Number(v)`, `None` when it throws. How a string is read as
      a number (decimal, hexadecimal, exponent, "Infinity", surrounding white
      space, or NaN for anything else) is the parameter `parse`. The
      conversion throws exactly for a composite value without a primitive. */
  function ToNumber(v: JsonValue, parse: string -> JsNumber): (r: Option<JsNumber>)
    ensures r.None? <==> v.Composite? && v.primitive.None?
  {
    match v
    case Undefined => Some(NonFinite)
    case Null => Some(Finite(0.0))
    case Boolean(b) => Some(Finite(if b then 1.0 else 0.0))
    case Number(n) => Some(Finite(n))
    case Text(s) => Some(parse(s))
    case Composite(None) => None
    case Composite(Some(t)) => Some(parse(t))
  }

  // ---------------------------------------------------------------------------
  // White space and String.prototype.trim

  /** The characters `trim` removes: ECMAScript's WhiteSpace (tab, vertical
      tab, form feed, space, no-break space, the byte order mark and the
      space separators of category Zs) and LineTerminator (line feed, carriage
      return, line separator, paragraph separator). */
  predicate IsWhitespace(c: char) {
    c == '\t' || c == '\n' || c == '\U{B}' || c == '\U{C}' || c == '\r' || c == ' '
    || c == '\U{A0}' || c == '\U{1680}' || ('\U{2000}' <= c <= '\U{200A}')
    || c == '\U{2028}' || c == '\U{2029}' || c == '\U{202F}' || c == '\U{205F}'
    || c == '\U{3000}' || c == '\U{FEFF}'
  }

  predicate AllWhitespace(s: string) {
    forall i :: 0 <= i < |s| ==> IsWhitespace(s[i])
  }

  /** A string `trim` leaves alone: empty, or neither end is white space. */
  predicate Tight(s: string) {
    s == [] || (!IsWhitespace(s[0]) && !IsWhitespace(s[|s| - 1]))
  }

  /** The number of white-space characters at the front of `s`: they are all
      white space, and the character after them (if any) is not. */
  function LeadingSpace(s: string): (n: nat)
    ensures n <= |s|
    ensures forall i :: 0 <= i < n ==> IsWhitespace(s[i])
    ensures n < |s| ==> !IsWhitespace(s[n])
  {
    if s != [] && IsWhitespace(s[0]) then 1 + LeadingSpace(s[1..]) else 0
  }

  /** The number of white-space characters at the back of `s`: they are all
      white space, and the character before them (if any) is not. */
  function TrailingSpace(s: string): (n: nat)
    ensures n <= |s|
    ensures forall i :: |s| - n <= i < |s| ==> IsWhitespace(s[i])
    ensures n < |s| ==> !IsWhitespace(s[|s| - n - 1])
  {
    if s != [] && IsWhitespace(s[|s| - 1]) then 1 + TrailingSpace(s[..|s| - 1]) else 0
  }

  /** `String.prototype.trim`: white space removed from both ends. */
  function Trim(s: string): (r: string)
    ensures Tight(r)
  {
    var n := LeadingSpace(s);
    var m := TrailingSpace(s[n..]);
    assert m < |s| - n ==> s[n..][|s| - n - m - 1] == s[|s| - m - 1];
    s[n..|s| - m]
  }

  /** `s` is its trimmed form with only white space around it. */
  lemma LeadingSpaceIsWhitespace(s: string)
    ensures AllWhitespace(s[..LeadingSpace(s)])
  {
    var t := s[..LeadingSpace(s)];
    forall i | 0 <= i < |t| ensures IsWhitespace(t[i]) {
      assert t[i] == s[i];
    }
  }

  lemma TrailingSpaceIsWhitespace(s: string)
    ensures AllWhitespace(s[|s| - TrailingSpace(s)..])
  {
    var k := |s| - TrailingSpace(s);
    var t := s[k..];
    forall i | 0 <= i < |t| ensures IsWhitespace(t[i]) {
      assert t[i] == s[k + i];
    }
  }

  lemma TrimDecomposes(s: string) returns (p: string, q: string)
    ensures AllWhitespace(p) && AllWhitespace(q)
    ensures s == p + Trim(s) + q
  {
    var n := LeadingSpace(s);
    var m := TrailingSpace(s[n..]);
    p, q := s[..n], s[|s| - m..];
    LeadingSpaceIsWhitespace(s);
    assert AllWhitespace(q) by {
      TrailingSpaceIsWhitespace(s[n..]);
      assert s[n..][|s[n..]| - m..] == q;
    }
    SplitThree(s, n, |s| - m);
  }

  lemma SplitThree(s: string, i: nat, j: nat)
    requires i <= j <= |s|
    ensures s == s[..i] + s[i..j] + s[j..]
  {
  }

  lemma {:induction false} LeadingSpaceAppend(p: string, u: string)
    requires AllWhitespace(p)
    ensures LeadingSpace(p + u) == |p| + LeadingSpace(u)
    decreases |p|
  {
    if p != [] {
      var s := p + u;
      assert s[0] == p[0];
      assert s[1..] == p[1..] + u;
      LeadingSpaceAppend(p[1..], u);
    } else {
      assert p + u == u;
    }
  }

  lemma {:induction false} TrailingSpaceAppend(u: string, q: string)
    requires AllWhitespace(q)
    ensures TrailingSpace(u + q) == TrailingSpace(u) + |q|
    decreases |q|
  {
    if q != [] {
      var s := u + q;
      assert s[|s| - 1] == q[|q| - 1];
      assert s[..|s| - 1] == u + q[..|q| - 1];
      TrailingSpaceAppend(u, q[..|q| - 1]);
    } else {
      assert u + q == u;
    }
  }

  /** The trimmed string is determined by the decomposition: whatever white
      space surrounds a tight string, `trim` gives back exactly that string. */
  lemma TrimUnique(p: string, t: string, q: string)
    requires AllWhitespace(p) && AllWhitespace(q) && Tight(t)
    ensures Trim(p + t + q) == t
  {
    var s := p + t + q;
    assert s == p + (t + q);
    LeadingSpaceAppend(p, t + q);
    if t == [] {
      assert t + q == q;
      assert LeadingSpace(q) == |q|;
    } else {
      assert (t + q)[0] == t[0];
      assert LeadingSpace(t + q) == 0;
      assert s[|p|..] == t + q;
      TrailingSpaceAppend(t, q);
      assert TrailingSpace(t) == 0;
      assert (t + q)[..|t|] == t;
    }
  }

  lemma AllWhitespaceAppend(a: string, b: string)
    requires AllWhitespace(a) && AllWhitespace(b)
    ensures AllWhitespace(a + b)
  {
    forall i | 0 <= i < |a + b| ensures IsWhitespace((a + b)[i]) {
      if i < |a| { assert (a + b)[i] == a[i]; } else { assert (a + b)[i] == b[i - |a|]; }
    }
  }

  /** White space added around a string does not change what `trim` gives. */
  lemma TrimIgnoresPadding(p: string, s: string, q: string)
    requires AllWhitespace(p) && AllWhitespace(q)
    ensures Trim(p + s + q) == Trim(s)
  {
    var t := Trim(s);
    var front, back := TrimDecomposes(s);
    assert p + s + q == (p + front) + t + (back + q);
    AllWhitespaceAppend(p, front);
    AllWhitespaceAppend(back, q);
    TrimUnique(p + front, t, back + q);
  }

  lemma TrimIdempotent(s: string)
    ensures Trim(Trim(s)) == Trim(s)
  {
    assert [] + Trim(s) + [] == Trim(s);
    TrimUnique([], Trim(s), []);
  }

  // ---------------------------------------------------------------------------
  // String.prototype.toLowerCase

  /** Upper-case letters of Basic Latin and Latin-1: A to Z, and U+00C0 to
      U+00DE except the multiplication sign U+00D7. */
  predicate IsUpper(c: char) {
    ('A' <= c <= 'Z') || ('\U{C0}' <= c <= '\U{DE}' && c != '\U{D7}')
  }

  /** Lower-cases one character: an upper-case letter moves 32 code points up
      to its small letter, every other character is left as it is. */
  function LowerChar(c: char): (r: char)
    ensures !IsUpper(r)
    ensures IsUpper(c) ==> r as int == c as int + 32
    ensures !IsUpper(c) ==> r == c
    ensures IsWhitespace(r) <==> IsWhitespace(c)
  {
    if IsUpper(c) then (c as int + 32) as char else c
  }

  /** `String.prototype.toLowerCase`, character by character. */
  function Lower(s: string): (r: string)
    ensures |r| == |s|
  {
    seq(|s|, i requires 0 <= i < |s| => LowerChar(s[i]))
  }

  lemma LowerAppend(a: string, b: string)
    ensures Lower(a + b) == Lower(a) + Lower(b)
  {
    assert forall i :: 0 <= i < |a + b| ==> Lower(a + b)[i] == (Lower(a) + Lower(b))[i];
  }

  lemma LowerIdempotent(s: string)
    ensures Lower(Lower(s)) == Lower(s)
  {
  }

  /** Lower-casing and trimming can be done in either order. */
  lemma LowerTrimCommute(s: string)
    ensures Trim(Lower(s)) == Lower(Trim(s))
  {
    var t := Trim(s);
    var p, q := TrimDecomposes(s);
    LowerAppend(p + t, q);
    LowerAppend(p, t);
    assert Tight(Lower(t));
    TrimUnique(Lower(p), Lower(t), Lower(q));
  }

  // ---------------------------------------------------------------------------
  // Math.round

  /** `Math.round` on a finite value: the nearest integer, halves rounded up
      (towards +Infinity, so -2.5 gives -2). */
  function Round(x: real): (r: int)
    ensures r as real - 0.5 <= x < r as real + 0.5
  {
    (x + 0.5).Floor
  }

  /** The nearest integer is unique: any integer within half of `x`, with the
      half-way case rounded up, is `Round(x)`. */
  lemma RoundUnique(x: real, n: int)
    requires n as real - 0.5 <= x < n as real + 0.5
    ensures Round(x) == n
  {
  }

  lemma RoundMonotone(x: real, y: real)
    requires x <= y
    ensures Round(x) <= Round(y)
  {
  }
}
