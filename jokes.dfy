/** The Joke entity: its fields, the two-argument constructor, the bean-validation
    constraints on its fields, and `equals`/`hashCode` over (text, date). */
module Jokes {
  import opened Outcomes

  /** The surrogate key the store generates for a persisted joke. */
  type Id = nat

  /** A calendar date. The model only ever compares dates for equality. */
  type Date = int

  /** A Java `int`: every arithmetic step of a hash wraps into this range. */
  type Int32 = x: int | -0x8000_0000 <= x < 0x8000_0000

  /** A joke record. Every field may be null (None): `id` until the store assigns one,
      `text` (the `joke` column) and `date` until validation rejects the record. */
  datatype Joke = Joke(id: Option<Id>, text: Option<string>, date: Option<Date>, description: Option<string>)

  /** The two-argument constructor `Joke(joke, date)`. */
  function NewJoke(text: Option<string>, date: Option<Date>): (j: Joke)
    ensures j.text == text && j.date == date
    ensures j.id.None? && j.description.None?
  {
    Joke(None, text, date, None)
  }

  // ---------------------------------------------------------------- validity

  /** Whitespace in the sense of `String.trim`: any char up to U+0020. */
  predicate IsSpace(c: char) {
    c <= ' '
  }

  /** `s` with its leading whitespace removed. */
  function TrimStart(s: string): (r: string)
    ensures |r| <= |s| && r == s[|s| - |r|..]
    ensures r != [] ==> !IsSpace(r[0])
    ensures forall i :: 0 <= i < |s| - |r| ==> IsSpace(s[i])
  {
    if s != [] && IsSpace(s[0]) then TrimStart(s[1..]) else s
  }

  /** `s` with its trailing whitespace removed. */
  function TrimEnd(s: string): (r: string)
    ensures |r| <= |s| && r == s[..|r|]
    ensures r != [] ==> !IsSpace(r[|r| - 1])
    ensures forall i :: |r| <= i < |s| ==> IsSpace(s[i])
  {
    if s != [] && IsSpace(s[|s| - 1]) then TrimEnd(s[..|s| - 1]) else s
  }

  /** `String.trim`: the result is no longer than the input, starts and ends with a
      non-space, and is empty exactly when the input is all whitespace. */
  function Trim(s: string): (r: string)
    ensures |r| <= |s|
    ensures r != [] ==> !IsSpace(r[0]) && !IsSpace(r[|r| - 1])
    ensures r == [] <==> forall i :: 0 <= i < |s| ==> IsSpace(s[i])
  {
    TrimEnd(TrimStart(s))
  }

  /** `r` is `s` with whitespace, and only whitespace, removed from either end: the
      slice of `s` starting at `a`, with everything before and after it whitespace. */
  ghost predicate TrimmedAt(s: string, r: string, a: int) {
    && 0 <= a <= |s| - |r|
    && r == s[a..a + |r|]
    && (forall i :: 0 <= i < a ==> IsSpace(s[i]))
    && (forall i :: a + |r| <= i < |s| ==> IsSpace(s[i]))
  }

  /** `String.trim` keeps a contiguous part of its input and drops only whitespace. */
  lemma TrimIsSlice(s: string)
    ensures exists a :: TrimmedAt(s, Trim(s), a)
  {
    var m := TrimStart(s);
    var r := TrimEnd(m);
    var a := |s| - |m|;
    assert m == s[a..];
    assert r == m[..|r|];
    forall i | a + |r| <= i < |s|
      ensures IsSpace(s[i])
    {
      assert s[i] == m[i - a];
    }
    assert Trim(s) == r;
    assert TrimmedAt(s, r, a);
  }

  /** The `@NotBlank` constraint: not null, and not empty once trimmed. */
  predicate NotBlank(s: Option<string>): (b: bool)
    ensures b ==> s.Some? && |s.value| > 0
  {
    s.Some? && |Trim(s.value)| > 0
  }

  /** A string is not blank exactly when some character of it is not whitespace. */
  lemma NotBlankIff(s: string)
    ensures NotBlank(Some(s)) <==> exists i :: 0 <= i < |s| && !IsSpace(s[i])
  {
  }

  /** A joke can be stored: its text is not blank (`@NotBlank`) and its date is
      present (`@NotNull`). */
  predicate IsValid(j: Joke): (b: bool)
    ensures b ==> j.text.Some? && |j.text.value| > 0 && j.date.Some?
  {
    NotBlank(j.text) && j.date.Some?
  }

  /** A joke is valid exactly when it has a date and a text with a non-whitespace character. */
  lemma IsValidIff(j: Joke)
    ensures IsValid(j) <==> j.date.Some? && j.text.Some? && exists i :: 0 <= i < |j.text.value| && !IsSpace(j.text.value[i])
  {
  }

  // ---------------------------------------------------------------- equality

  /** The argument of `equals(Object o)`: null, a Joke, or an object of another class. */
  datatype Object = Null | JokeObject(joke: Joke) | OtherObject

  /** `Joke.equals`: false for null and for another class, otherwise the texts and
      the dates are compared null-safely; id and description play no part. */
  function Equals(a: Joke, o: Object): (eq: bool)
    ensures eq ==> o.JokeObject?
    ensures o.JokeObject? ==> (eq <==> a.text == o.joke.text && a.date == o.joke.date)
  {
    match o
    case Null => false
    case OtherObject => false
    case JokeObject(b) => a.text == b.text && a.date == b.date
  }

  lemma EqualsReflexive(a: Joke)
    ensures Equals(a, JokeObject(a))
  {
  }

  lemma EqualsSymmetric(a: Joke, b: Joke)
    ensures Equals(a, JokeObject(b)) <==> Equals(b, JokeObject(a))
  {
  }

  lemma EqualsTransitive(a: Joke, b: Joke, c: Joke)
    requires Equals(a, JokeObject(b)) && Equals(b, JokeObject(c))
    ensures Equals(a, JokeObject(c))
  {
  }

  /** Changing the id or the description never changes what a joke equals. */
  lemma EqualsIgnoresIdAndDescription(a: Joke, o: Object, id: Option<Id>, description: Option<string>)
    ensures Equals(a.(id := id, description := description), o) == Equals(a, o)
  {
  }

  // ---------------------------------------------------------------- hashing

  /** Two's-complement wrap-around of a Java `int` operation. */
  function Wrap32(x: int): (r: Int32)
    ensures (r - x) % 0x1_0000_0000 == 0
  {
    var m := x % 0x1_0000_0000;
    if m < 0x8000_0000 then m else m - 0x1_0000_0000
  }

  /** The UTF-16 code units Java stores for one character: the character itself below
      U+10000, otherwise its high surrogate followed by its low surrogate, which
      together decode back to the character. */
  function Utf16(c: char): (u: seq<int>)
    ensures |u| == 1 <==> (c as int) < 0x1_0000
    ensures |u| == 1 ==> u[0] == c as int
    ensures |u| != 1 ==> |u| == 2 && 0xD800 <= u[0] < 0xDC00 <= u[1] < 0xE000
                         && (u[0] - 0xD800) * 0x400 + (u[1] - 0xDC00) + 0x1_0000 == c as int
  {
    if (c as int) < 0x1_0000 then [c as int]
    else
      var v := c as int - 0x1_0000;
      [0xD800 + v / 0x400, 0xDC00 + v % 0x400]
  }

  /** The UTF-16 encoding of a string, the sequence `String.hashCode` iterates over. */
  function Utf16Units(s: string): (u: seq<int>)
    ensures |u| >= |s|
    ensures forall i :: 0 <= i < |u| ==> 0 <= u[i] < 0x1_0000
  {
    if s == [] then [] else Utf16Units(s[..|s| - 1]) + Utf16(s[|s| - 1])
  }

  /** Powers of 31. */
  function Pow31(n: nat): nat {
    if n == 0 then 1 else 31 * Pow31(n - 1)
  }

  /** The value `String.hashCode` is documented to compute, in exact arithmetic:
      u[0]*31^(n-1) + u[1]*31^(n-2) + ... + u[n-1]. */
  function Polynomial(u: seq<int>): int {
    if u == [] then 0 else u[0] * Pow31(|u| - 1) + Polynomial(u[1..])
  }

  /** The documented sum can be evaluated from the left, one unit at a time. */
  lemma {:induction false} PolynomialLast(u: seq<int>)
    requires u != []
    ensures Polynomial(u) == 31 * Polynomial(u[..|u| - 1]) + u[|u| - 1]
    decreases |u|
  {
    if |u| > 1 {
      var init := u[..|u| - 1];
      PolynomialLast(u[1..]);
      assert u[1..][..|u[1..]| - 1] == init[1..];
      assert u[0] * Pow31(|u| - 1) == 31 * (u[0] * Pow31(|u| - 2));
    }
  }

  /** Java `int` arithmetic may wrap after every step or only at the end: congruence
      modulo 2^32 carries through h = 31 * h + c. */
  lemma CongruentStep(a: int, b: int, x: int, c: int)
    requires (a - b) % 0x1_0000_0000 == 0
    requires (x - (31 * a + c)) % 0x1_0000_0000 == 0
    ensures (x - (31 * b + c)) % 0x1_0000_0000 == 0
  {
    var k1 := (a - b) / 0x1_0000_0000;
    var k2 := (x - (31 * a + c)) / 0x1_0000_0000;
    assert x - (31 * b + c) == 0x1_0000_0000 * (k2 + 31 * k1);
  }

  /** The loop of `String.hashCode` over code units: h = 31 * h + u, in `int`
      arithmetic. It agrees with the documented sum modulo 2^32. */
  function UnitsHash(u: seq<int>): (r: Int32)
    ensures (r - Polynomial(u)) % 0x1_0000_0000 == 0
  {
    if u == [] then 0
    else
      var h := UnitsHash(u[..|u| - 1]);
      var r := Wrap32(31 * h + u[|u| - 1]);
      PolynomialLast(u);
      CongruentStep(h, Polynomial(u[..|u| - 1]), r, u[|u| - 1]);
      r
  }

  /** `String.hashCode`: the code-unit loop over the UTF-16 encoding. */
  function StringHash(s: string): (r: Int32)
    ensures (r - Polynomial(Utf16Units(s))) % 0x1_0000_0000 == 0
  {
    UnitsHash(Utf16Units(s))
  }

  /** A character outside the Basic Multilingual Plane hashes as its two surrogates:
      31 * 0xD83D + 0xDE00 for U+1F600. */
  lemma SupplementaryCharHashesAsSurrogates()
    ensures Utf16Units("\U{1F600}") == [0xD83D, 0xDE00]
    ensures StringHash("\U{1F600}") == 1772899
  {
    assert "\U{1F600}"[..0] == [];
  }

  /** `Objects.hash` of two fields: starting from 1, each field contributes
      31 * result + its hash, so the result is 31^2 + 31 * h1 + h2 modulo 2^32. */
  function ObjectsHash(h1: Int32, h2: Int32): (r: Int32)
    ensures (r - (961 + 31 * h1 + h2)) % 0x1_0000_0000 == 0
  {
    var afterFirst := Wrap32(31 * 1 + h1);
    var r := Wrap32(31 * afterFirst + h2);
    CongruentStep(afterFirst, 31 + h1, r, h2);
    r
  }

  /** The hash `Objects.hash` takes for the text field: 0 for null. */
  function TextHash(text: Option<string>): Int32 {
    if text.Some? then StringHash(text.value) else 0
  }

  /** The hash `Objects.hash` takes for the date field: 0 for null. */
  function DateHash(date: Option<Date>, dateHash: Date -> Int32): Int32 {
    if date.Some? then dateHash(date.value) else 0
  }

  /** `Joke.hashCode`, that is `Objects.hash(joke, date)`, a null field hashing to 0.
      `LocalDate.hashCode` is not part of this model and is passed in as `dateHash`. */
  function HashCode(j: Joke, dateHash: Date -> Int32): (r: Int32)
    ensures (r - (961 + 31 * TextHash(j.text) + DateHash(j.date, dateHash))) % 0x1_0000_0000 == 0
  {
    ObjectsHash(TextHash(j.text), DateHash(j.date, dateHash))
  }

  /** `hashCode` agrees with `equals`. */
  lemma HashAgreesWithEquals(a: Joke, b: Joke, dateHash: Date -> Int32)
    requires Equals(a, JokeObject(b))
    ensures HashCode(a, dateHash) == HashCode(b, dateHash)
  {
  }
}
