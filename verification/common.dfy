/** Shared vocabulary of the preferences model: Java's nullable references become
    `Option`, thrown exceptions become the `Failure` arm of a `Result`, and the
    two string checks the code relies on (Spring's `hasText`, `isEmpty`) plus
    Java's 32-bit `hashCode` arithmetic are written out once here. */
module Common {

  datatype Option<+T> = None | Some(value: T)

  /** The exception kinds the modelled code throws. */
  datatype Error =
    | NotFound            // org.ameba NotFoundException
    | NotAuthorized       // NotAuthorizedException (USER scope guard)
    | ResourceExists      // ResourceExistsException
    | IllegalArgument     // IllegalArgumentException (Spring Assert, bad switch input)
    | IllegalState        // IllegalStateException (Collectors.toMap duplicate, resolveScope)
    | NoUniqueResult      // NoUniqueResultException (file loader)
    | IncorrectResultSize // more than one row for a single-result repository query
    | NullPointer         // a dereference of null
    | IntegrationLayer    // unmarshalling failed
    | ResourceNotFound    // the definition file could not be read
    | DataIntegrityViolation // a write refused by a database constraint
    | ConstraintViolation    // a method argument refused by Bean Validation (`@NotBlank`)

  datatype Result<+T> = Success(value: T) | Failure(error: Error)

  /** A Java `String` reference that may be null. */
  type NStr = Option<string>

  /** `Character.isWhitespace`: the Unicode space, line and paragraph separators
      other than the three non-breaking spaces, and the ASCII controls
      U+0009..U+000D and U+001C..U+001F. */
  predicate IsWhitespace(c: char) {
    || ('\U{9}' <= c <= '\U{D}')
    || ('\U{1C}' <= c <= '\U{20}')
    || c == '\U{1680}'
    || ('\U{2000}' <= c <= '\U{2006}')
    || ('\U{2008}' <= c <= '\U{200A}')
    || c == '\U{2028}' || c == '\U{2029}' || c == '\U{205F}' || c == '\U{3000}'
  }

  /** Spring's `StringUtils.hasText`, the test behind `Assert.hasText`:
      not null and holding at least one non-whitespace character. */
  predicate HasText(s: NStr) {
    s.Some? && exists i :: 0 <= i < |s.value| && !IsWhitespace(s.value[i])
  }

  /** `s != null && !s.isEmpty()`. */
  predicate NonEmpty(s: NStr) {
    s.Some? && s.value != ""
  }

  /** Bean Validation's `@NotBlank` as its reference implementation checks it:
      not null, and not empty after `String.trim()`, which strips every
      character up to U+0020 from both ends. */
  predicate NotBlank(s: NStr) {
    s.Some? && exists i :: 0 <= i < |s.value| && s.value[i] > ' '
  }

  /** A string of printable ASCII and whitespace. */
  predicate PlainText(s: NStr) {
    s.Some? && forall i :: 0 <= i < |s.value| ==> s.value[i] < '\U{80}' && (IsWhitespace(s.value[i]) || s.value[i] > ' ')
  }

  /** `@NotBlank` and `hasText` agree on strings of printable ASCII and
      whitespace, but not beyond: a control character below U+0020 that is not
      whitespace has text yet trims away, and an em space survives trimming
      yet is whitespace. */
  lemma NotBlankVersusHasText(s: NStr)
    ensures NotBlank(s) ==> NonEmpty(s)
    ensures PlainText(s) ==> (NotBlank(s) <==> HasText(s))
    ensures HasText(Some("\U{1}")) && !NotBlank(Some("\U{1}"))
    ensures NotBlank(Some("\U{2003}")) && !HasText(Some("\U{2003}"))
  {
    if PlainText(s) {
      forall i | 0 <= i < |s.value| ensures s.value[i] > ' ' <==> !IsWhitespace(s.value[i]) {
        assert s.value[i] < '\U{80}' && (IsWhitespace(s.value[i]) || s.value[i] > ' ');
      }
    }
    assert Some("\U{1}").value[0] == '\U{1}';
    assert Some("\U{2003}").value[0] == '\U{2003}';
  }

  lemma HasTextIsNonEmpty(s: NStr)
    ensures HasText(s) ==> NonEmpty(s)
    ensures NonEmpty(s) && !IsWhitespace(s.value[0]) ==> HasText(s)
  {
  }

  const TwoTo32: int := 0x1_0000_0000
  const TwoTo31: int := 0x8000_0000

  /** The Java `int` that an unbounded integer wraps to. */
  function Wrap32(x: int): (r: int)
    ensures -TwoTo31 <= r < TwoTo31
    ensures (r - x) % TwoTo32 == 0
  {
    (x + TwoTo31) % TwoTo32 - TwoTo31
  }

  /** A value already in the `int` range is its own wrap. */
  lemma Wrap32InRange(x: int)
    requires -TwoTo31 <= x < TwoTo31
    ensures Wrap32(x) == x
  {
  }

  /** `String.hashCode`: s[0]*31^(n-1) + ... + s[n-1], in 32-bit arithmetic. */
  function StringHash(s: string): (h: int)
    ensures -TwoTo31 <= h < TwoTo31
    decreases |s|
  {
    if s == [] then 0 else Wrap32(31 * StringHash(s[..|s| - 1]) + (s[|s| - 1] as int))
  }

  /** `Objects.hashCode` of a possibly-null String. */
  function NStrHash(s: NStr): int {
    match s
    case None => 0
    case Some(v) => StringHash(v)
  }

  /** `Arrays.hashCode` over element hashes: start at 1, then `31 * r + h`. */
  function ArraysHash(hs: seq<int>): (h: int)
    ensures -TwoTo31 <= h < TwoTo31
    decreases |hs|
  {
    if hs == [] then 1 else Wrap32(31 * ArraysHash(hs[..|hs| - 1]) + hs[|hs| - 1])
  }

  /** `Objects.hash(a, b, ...)` of possibly-null Strings. */
  function ObjectsHash(fields: seq<NStr>): int {
    ArraysHash(seq(|fields|, i requires 0 <= i < |fields| => NStrHash(fields[i])))
  }
}
