/** The records of a preferences definition file: `GenericPreference` (value,
    type name, description, minimum, maximum as raw strings; nothing parses or
    enforces the bounds) and its four kinds, each identified by a key tuple. */
module FileRecords {
  import opened Common
  import opened PrefTypes
  import opened PrefKey

  /** The fields every file record shares. */
  datatype Generic = Generic(value: NStr, typeName: NStr, description: NStr, minimum: NStr, maximum: NStr)

  const EmptyGeneric: Generic := Generic(None, None, None, None, None)

  /** The runtime class of a record. */
  datatype Kind = ApplicationKind | ModuleKind | RoleKind | UserKind

  datatype FilePref =
    | ApplicationPreference(common: Generic, key: NStr)
    | ModulePreference(common: Generic, owner: NStr, key: NStr)
    | RolePreference(common: Generic, owner: NStr, key: NStr)
    | UserPreference(common: Generic, owner: NStr, key: NStr)

  function KindOf(p: FilePref): Kind {
    match p
    case ApplicationPreference(_, _) => ApplicationKind
    case ModulePreference(_, _, _) => ModuleKind
    case RolePreference(_, _, _) => RoleKind
    case UserPreference(_, _, _) => UserKind
  }

  /** The scope each kind stands for. */
  function ScopeOfKind(k: Kind): Scope {
    match k
    case ApplicationKind => APPLICATION
    case ModuleKind => MODULE
    case RoleKind => ROLE
    case UserKind => USER
  }

  /** `fromFile` is a static constant of `GenericPreference`. */
  const FromFile: bool := true

  /** `getPrefKey()` of each kind: the application kind uses the sentinel owner;
      the other three use their owner field as it is, null included. */
  function FileKey(p: FilePref): (k: PreferenceKey)
    ensures p.ApplicationPreference? ==> k == Triple(Some(ApplicationOwner), p.key, Some("APPLICATION"))
    ensures !p.ApplicationPreference? ==> k == Triple(p.owner, p.key, Some(ScopeName(ScopeOfKind(KindOf(p)))))
  {
    match p
    case ApplicationPreference(_, key) => Triple(Some(ApplicationOwner), key, Some(ScopeName(APPLICATION)))
    case ModulePreference(_, owner, key) => Triple(owner, key, Some(ScopeName(MODULE)))
    case RolePreference(_, owner, key) => Triple(owner, key, Some(ScopeName(ROLE)))
    case UserPreference(_, owner, key) => Triple(owner, key, Some(ScopeName(USER)))
  }

  /** Two records have the same identity exactly when they are of the same kind
      (equivalently, the same scope name) and carry the same key and owner; the
      application kind's owner is always the sentinel. */
  lemma {:induction false} FileKeyInjective(a: FilePref, b: FilePref)
    ensures FileKey(a) == FileKey(b)
            <==> && KindOf(a) == KindOf(b) && a.key == b.key
                 && (!a.ApplicationPreference? ==> a.owner == b.owner)
  {
    var sa := ScopeOfKind(KindOf(a));
    var sb := ScopeOfKind(KindOf(b));
    TripleInjective(FileKey(a).fields[0], a.key, Some(ScopeName(sa)),
                    FileKey(b).fields[0], b.key, Some(ScopeName(sb)));
    ScopeNameInjective(sa, sb);
  }

  /** A role and a module record with the same owner and key differ in identity. */
  lemma RoleAndModuleKeysDiffer(g1: Generic, g2: Generic, owner: NStr, key: NStr)
    ensures FileKey(RolePreference(g1, owner, key)) != FileKey(ModulePreference(g2, owner, key))
  {
    FileKeyInjective(RolePreference(g1, owner, key), ModulePreference(g2, owner, key));
  }

  /** Application records with equal keys share one identity, so a map keyed by
      identity keeps one of them; distinct keys give distinct identities. */
  lemma ApplicationKeysDeduplicate(a: FilePref, b: FilePref, m: map<PreferenceKey, FilePref>)
    requires a.ApplicationPreference? && b.ApplicationPreference?
    ensures FileKey(a) == FileKey(b) <==> a.key == b.key
    ensures a.key == b.key ==> |m[FileKey(a) := a][FileKey(b) := b]| == |m[FileKey(a) := a]|
  {
    FileKeyInjective(a, b);
  }

  // ---------------------------------------------------------------- constructors

  /** `new ApplicationPreference(key)`: rejects a key without text. */
  function NewApplicationPreference(key: NStr): (r: Result<FilePref>)
    ensures r.Success? <==> HasText(key)
    ensures r.Failure? ==> r.error == IllegalArgument
    ensures r.Success? ==> r.value.ApplicationPreference? && r.value.key == key && r.value.common == EmptyGeneric
  {
    if !HasText(key) then Failure(IllegalArgument) else Success(ApplicationPreference(EmptyGeneric, key))
  }

  /** `new ModulePreference(owner, key)`: rejects an owner or key without text. */
  function NewModulePreference(owner: NStr, key: NStr): (r: Result<FilePref>)
    ensures r.Success? <==> HasText(owner) && HasText(key)
    ensures r.Failure? ==> r.error == IllegalArgument
    ensures r.Success? ==> r.value == ModulePreference(EmptyGeneric, owner, key)
  {
    if !HasText(owner) then Failure(IllegalArgument)
    else if !HasText(key) then Failure(IllegalArgument)
    else Success(ModulePreference(EmptyGeneric, owner, key))
  }

  /** `new UserPreference(owner, key)`: rejects an owner or key without text. The
      setters are plain field updates and validate nothing. */
  function NewUserPreference(owner: NStr, key: NStr): (r: Result<FilePref>)
    ensures r.Success? <==> HasText(owner) && HasText(key)
    ensures r.Failure? ==> r.error == IllegalArgument
    ensures r.Success? ==> r.value == UserPreference(EmptyGeneric, owner, key)
  {
    if !HasText(owner) then Failure(IllegalArgument)
    else if !HasText(key) then Failure(IllegalArgument)
    else Success(UserPreference(EmptyGeneric, owner, key))
  }

  /** `new RolePreference(rolename, key)` as written: the first check reads the
      field `owner`, which is still null at that point, instead of `rolename`. */
  function NewRolePreferenceAsWritten(rolename: NStr, key: NStr): (r: Result<FilePref>)
    ensures r.Failure? && r.error == IllegalArgument
  {
    var owner: NStr := None;
    if !HasText(owner) then Failure(IllegalArgument)
    else if !HasText(key) then Failure(IllegalArgument)
    else Success(RolePreference(EmptyGeneric, rolename, key))
  }

  /** The as-written constructor rejects even a well-formed role name and key. */
  lemma RoleConstructorRejectsValidInput()
    ensures HasText(Some("ADMIN")) && HasText(Some("theme"))
    ensures NewRolePreferenceAsWritten(Some("ADMIN"), Some("theme")).Failure?
  {
    assert !IsWhitespace("ADMIN"[0]);
    assert !IsWhitespace("theme"[0]);
  }

  /** The constructor as its documentation describes it: it rejects a role name
      or key without text and otherwise records both. */
  function NewRolePreference(rolename: NStr, key: NStr): (r: Result<FilePref>)
    ensures r.Success? <==> HasText(rolename) && HasText(key)
    ensures r.Failure? ==> r.error == IllegalArgument
    ensures r.Success? ==> r.value == RolePreference(EmptyGeneric, rolename, key)
  {
    if !HasText(rolename) then Failure(IllegalArgument)
    else if !HasText(key) then Failure(IllegalArgument)
    else Success(RolePreference(EmptyGeneric, rolename, key))
  }

  /** `ApplicationPreference.Builder.build()`: copies value, type, description,
      minimum, maximum and key verbatim; unlike the constructor it checks nothing. */
  function BuildApplicationPreference(g: Generic, key: NStr): (p: FilePref)
    ensures p.ApplicationPreference? && p.common == g && p.key == key
    ensures FileKey(p) == Triple(Some(ApplicationOwner), key, Some("APPLICATION"))
  {
    ApplicationPreference(g, key)
  }

  /** The builder agrees with the constructor wherever the constructor accepts,
      and also produces the keyless record the constructor refuses. */
  lemma BuilderSkipsValidation(key: NStr)
    ensures NewApplicationPreference(key).Success? ==>
              NewApplicationPreference(key).value == BuildApplicationPreference(EmptyGeneric, key)
    ensures NewApplicationPreference(None).Failure?
    ensures BuildApplicationPreference(EmptyGeneric, None).key.None?
  {
  }

  /** `UserPreference.setOwner`: assigns any owner, null included. */
  function SetUserOwner(p: FilePref, owner: NStr): (r: FilePref)
    requires p.UserPreference?
    ensures r.UserPreference? && r.owner == owner && r.key == p.key && r.common == p.common
  {
    UserPreference(p.common, owner, p.key)
  }

  /** `UserPreference.setKey`: assigns any key, null included. */
  function SetUserKey(p: FilePref, key: NStr): (r: FilePref)
    requires p.UserPreference?
    ensures r.UserPreference? && r.key == key && r.owner == p.owner && r.common == p.common
  {
    UserPreference(p.common, p.owner, key)
  }

  /** Only the two-argument constructor validates: the setters turn an accepted
      record into one with a null owner and key, which the constructor refuses. */
  lemma SettersBypassValidation(p: FilePref)
    requires p.UserPreference?
    ensures var q := SetUserKey(SetUserOwner(p, None), None);
            && NewUserPreference(q.owner, q.key).Failure?
            && FileKey(q) == Triple(None, None, Some("USER"))
  {
  }

  // ---------------------------------------------------------------- equality

  /** `GenericPreference.equals`: identical runtime class and equal value, type,
      description, minimum and maximum. */
  predicate GenericEquals(a: FilePref, b: FilePref)
    ensures GenericEquals(a, b) ==> GenericHash(a.common) == GenericHash(b.common)
  {
    KindOf(a) == KindOf(b) && a.common == b.common
  }

  /** `a.equals(b)` for the record kind of `a`. The application kind adds the key
      to the superclass comparison; the other three compare only key, owner and
      the type string, and dereference their own type when key and owner match.
      (The `this == obj` short-cut on one and the same object is not modelled.) */
  function FileEquals(a: FilePref, b: FilePref): (r: Result<bool>)
    ensures r.Failure? <==>
              && !a.ApplicationPreference? && KindOf(a) == KindOf(b)
              && a.key == b.key && a.owner == b.owner && a.common.typeName.None?
    ensures r.Failure? ==> r.error == NullPointer
    ensures a.ApplicationPreference? ==> r == Success(GenericEquals(a, b) && a.key == b.key)
    ensures !a.ApplicationPreference? && r.Success? ==>
              (r.value <==> KindOf(a) == KindOf(b) && a.key == b.key && a.owner == b.owner
                            && a.common.typeName == b.common.typeName)
  {
    if a.ApplicationPreference? then Success(GenericEquals(a, b) && a.key == b.key)
    else if KindOf(a) != KindOf(b) then Success(false)
    else if a.key != b.key then Success(false)
    else if a.owner != b.owner then Success(false)
    else if a.common.typeName.None? then Failure(NullPointer)
    else Success(a.common.typeName == b.common.typeName)
  }

  /** A keyless application record differs from a keyed one, and for the other
      kinds equality ignores value and description. */
  lemma EqualityExamples(g: Generic, h: Generic, owner: NStr, key: string)
    requires g.typeName.Some? && h.typeName == g.typeName
    ensures FileEquals(ApplicationPreference(EmptyGeneric, None), ApplicationPreference(EmptyGeneric, Some(key))) == Success(false)
    ensures FileEquals(ModulePreference(g, owner, Some(key)), ModulePreference(h, owner, Some(key))) == Success(true)
    ensures FileEquals(UserPreference(g.(typeName := None), owner, Some(key)), UserPreference(h, owner, Some(key))).Failure?
  {
  }

  // ---------------------------------------------------------------- hash codes

  /** `GenericPreference.hashCode`: `Objects.hash` over exactly the five shared fields. */
  function GenericHash(g: Generic): (h: int)
    ensures -TwoTo31 <= h < TwoTo31
  {
    ObjectsHash([g.value, g.typeName, g.description, g.minimum, g.maximum])
  }

  /** `ApplicationPreference.hashCode`: `Objects.hash(super.hashCode(), key)`. */
  function ApplicationHash(p: FilePref): (h: int)
    requires p.ApplicationPreference?
    ensures -TwoTo31 <= h < TwoTo31
  {
    ArraysHash([GenericHash(p.common), NStrHash(p.key)])
  }

  /** Equal application records hash equally. */
  lemma ApplicationHashConsistent(a: FilePref, b: FilePref)
    requires a.ApplicationPreference? && FileEquals(a, b) == Success(true)
    ensures b.ApplicationPreference? && ApplicationHash(a) == ApplicationHash(b)
  {
  }

  /** `result = prime * result + h` in 32-bit arithmetic. */
  function Mix(result: int, h: int): int {
    Wrap32(31 * result + h)
  }

  /** `hashCode` of the module, role and user kinds as written: it starts from
      `super.hashCode()`, which covers value, description, minimum and maximum,
      and then mixes in key, owner and type. */
  function OwnedHashAsWritten(p: FilePref): (h: int)
    requires !p.ApplicationPreference?
    ensures -TwoTo31 <= h < TwoTo31
  {
    Mix(Mix(Mix(GenericHash(p.common), NStrHash(p.key)), NStrHash(p.owner)), NStrHash(p.common.typeName))
  }

  /** The field-by-field comparison of an owned record without type against
      itself throws, where Java's identity test answers true before reaching
      the type: the model compares values, never object identities. */
  lemma UntypedSelfComparison()
    ensures var x := ModulePreference(Generic(Some("v"), None, None, None, None), Some("m"), Some("k"));
            FileEquals(x, x) == Failure(NullPointer)
  {
  }

  /** Two equal module records whose hash codes differ: the as-written hash code
      breaks the `equals`/`hashCode` contract. */
  lemma OwnedHashBreaksEquals()
    ensures var g1 := Generic(Some("1"), Some("INT"), None, None, None);
            var g2 := Generic(Some("2"), Some("INT"), None, None, None);
            && FileEquals(ModulePreference(g1, Some("m"), Some("k")), ModulePreference(g2, Some("m"), Some("k"))) == Success(true)
            && OwnedHashAsWritten(ModulePreference(g1, Some("m"), Some("k")))
               != OwnedHashAsWritten(ModulePreference(g2, Some("m"), Some("k")))
  {
    var g1 := Generic(Some("1"), Some("INT"), None, None, None);
    var g2 := Generic(Some("2"), Some("INT"), None, None, None);
    var a := ModulePreference(g1, Some("m"), Some("k"));
    var b := ModulePreference(g2, Some("m"), Some("k"));
    GenericHashesDiffer();
    MixInjective(GenericHash(g1), GenericHash(g2), NStrHash(a.key));
    var x1 := Mix(GenericHash(g1), NStrHash(a.key));
    var x2 := Mix(GenericHash(g2), NStrHash(b.key));
    MixInjective(x1, x2, NStrHash(a.owner));
    MixInjective(Mix(x1, NStrHash(a.owner)), Mix(x2, NStrHash(b.owner)), NStrHash(a.common.typeName));
  }

  /** The hash code the documentation describes ("uses the type, owner and the
      key"): the same mixing, started from 1 instead of the superclass hash. */
  function OwnedHash(p: FilePref): (h: int)
    requires !p.ApplicationPreference?
    ensures -TwoTo31 <= h < TwoTo31
  {
    Mix(Mix(Mix(1, NStrHash(p.key)), NStrHash(p.owner)), NStrHash(p.common.typeName))
  }

  /** With that hash code equal records hash equally. */
  lemma OwnedHashConsistent(a: FilePref, b: FilePref)
    requires !a.ApplicationPreference? && FileEquals(a, b) == Success(true)
    ensures !b.ApplicationPreference? && OwnedHash(a) == OwnedHash(b)
  {
  }

  /** Multiplying by the odd number 31 is invertible modulo 2^32, so one mixing
      step is injective in the running result. */
  lemma MixInjective(x: int, y: int, h: int)
    requires -TwoTo31 <= x < TwoTo31 && -TwoTo31 <= y < TwoTo31
    ensures Mix(x, h) == Mix(y, h) ==> x == y
  {
    if Mix(x, h) == Mix(y, h) {
      // 31 * (x - y) is a multiple of 2^32, and 31 * 3186588639 == 1 + 23 * 2^32.
      var d := x - y;
      WrapEqualMeansCongruent(31 * x + h, 31 * y + h);
      assert (31 * d) % TwoTo32 == 0;
      var q := (31 * d) / TwoTo32;
      assert 31 * d == q * TwoTo32;
      var m := 3186588639 * q - 23 * d;
      assert d == m * TwoTo32 by {
        assert 3186588639 * 31 == 1 + 23 * TwoTo32;
        assert d * (1 + 23 * TwoTo32) == 3186588639 * q * TwoTo32;
      }
    }
  }

  lemma WrapEqualMeansCongruent(u: int, v: int)
    requires Wrap32(u) == Wrap32(v)
    ensures (u - v) % TwoTo32 == 0
  {
  }

  /** The two example generic parts hash differently. */
  lemma GenericHashesDiffer()
    ensures GenericHash(Generic(Some("1"), Some("INT"), None, None, None))
            != GenericHash(Generic(Some("2"), Some("INT"), None, None, None))
  {
    var g1 := Generic(Some("1"), Some("INT"), None, None, None);
    var g2 := Generic(Some("2"), Some("INT"), None, None, None);
    var f1 := [g1.value, g1.typeName, g1.description, g1.minimum, g1.maximum];
    var f2 := [g2.value, g2.typeName, g2.description, g2.minimum, g2.maximum];
    var h1 := seq(|f1|, i requires 0 <= i < |f1| => NStrHash(f1[i]));
    var h2 := seq(|f2|, i requires 0 <= i < |f2| => NStrHash(f2[i]));
    assert StringHash("1") == 49 by { assert "1"[..0] == []; }
    assert StringHash("2") == 50 by { assert "2"[..0] == []; }
    assert h1[0] == 49 && h2[0] == 50;
    assert h1[1..] == h2[1..];
    ArraysHashPrefixInjective(h1, h2);
  }

  /** `Arrays.hashCode` of two equally long sequences that differ only in the
      first element (both within int range) differ. */
  lemma {:induction false} ArraysHashPrefixInjective(h1: seq<int>, h2: seq<int>)
    requires |h1| == |h2| > 0
    requires h1[0] != h2[0] && -TwoTo31 <= h1[0] - 31 < TwoTo31 - 31 && -TwoTo31 <= h2[0] - 31 < TwoTo31 - 31
    requires 0 <= h1[0] < 1000 && 0 <= h2[0] < 1000
    requires h1[1..] == h2[1..]
    ensures ArraysHash(h1) != ArraysHash(h2)
    decreases |h1|
  {
    var n := |h1| - 1;
    if n == 0 {
      assert ArraysHash(h1[..0]) == 1 && ArraysHash(h2[..0]) == 1;
    } else {
      assert h1[..n][1..] == h2[..n][1..] by {
        assert h1[..n][1..] == h1[1..][..n - 1];
        assert h2[..n][1..] == h2[1..][..n - 1];
      }
      ArraysHashPrefixInjective(h1[..n], h2[..n]);
      assert h1[n] == h1[1..][n - 1] == h2[1..][n - 1] == h2[n];
      MixInjective(ArraysHash(h1[..n]), ArraysHash(h2[..n]), h1[n]);
    }
  }
}
