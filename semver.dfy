/** Release versions `major.minor.patch` as both back ends use them (`node_semver::Version`
    on the Rust side, the `semver` package on the Electron side), without pre-release or
    build metadata. */
module Semver {
  import opened Wrappers
  import opened Strings

  datatype Version = Version(major: nat, minor: nat, patch: nat)

  /** The text form `M.m.p`. */
  function Show(v: Version): string
  {
    NatToString(v.major) + "." + NatToString(v.minor) + "." + NatToString(v.patch)
  }

  /** Parses exactly three dot-separated canonical numerals. */
  function Parse(s: string): Option<Version>
  {
    var parts := Split(s, '.');
    if |parts| == 3 && IsNumeral(parts[0]) && IsNumeral(parts[1]) && IsNumeral(parts[2])
    then Some(Version(DigitsValue(parts[0]), DigitsValue(parts[1]), DigitsValue(parts[2])))
    else None
  }

  lemma ParseShow(v: Version)
    ensures Parse(Show(v)) == Some(v)
  {
    var a, b, c := NatToString(v.major), NatToString(v.minor), NatToString(v.patch);
    NatToStringIsNumeral(v.major);
    NatToStringIsNumeral(v.minor);
    NatToStringIsNumeral(v.patch);
    NumeralHasNoDot(a);
    NumeralHasNoDot(b);
    NumeralHasNoDot(c);
    JoinThree(a, b, c);
    SplitJoin([a, b, c], '.');
  }

  lemma ShowParse(s: string, v: Version)
    requires Parse(s) == Some(v)
    ensures Show(v) == s
  {
    var parts := Split(s, '.');
    JoinSplit(s, '.');
    NumeralIsNatToString(parts[0]);
    NumeralIsNatToString(parts[1]);
    NumeralIsNatToString(parts[2]);
    assert parts == [parts[0], parts[1], parts[2]];
    JoinThree(parts[0], parts[1], parts[2]);
  }

  lemma JoinThree(a: string, b: string, c: string)
    ensures Join([a, b, c], ".") == a + "." + b + "." + c
  {
    assert [a, b, c][1..] == [b, c];
    assert [b, c][1..] == [c];
    assert Join([b, c], ".") == b + "." + c;
  }

  lemma NumeralHasNoDot(s: string)
    requires AllDigits(s)
    ensures '.' !in s
  {
  }

  // ---------------------------------------------------------------- order

  /** Precedence: lexicographic on (major, minor, patch). */
  predicate Lt(a: Version, b: Version)
  {
    a.major < b.major
    || (a.major == b.major && a.minor < b.minor)
    || (a.major == b.major && a.minor == b.minor && a.patch < b.patch)
  }

  predicate Gt(a: Version, b: Version) { Lt(b, a) }
  predicate Lte(a: Version, b: Version) { !Lt(b, a) }
  predicate Gte(a: Version, b: Version) { !Lt(a, b) }

  /** The three-way comparison `Ordering` of `Version::cmp`. */
  function Compare(a: Version, b: Version): (c: int)
    ensures c == -1 <==> Lt(a, b)
    ensures c == 1 <==> Gt(a, b)
    ensures c == 0 <==> a == b
  {
    if Lt(a, b) then -1 else if Lt(b, a) then 1 else 0
  }

  lemma LtIrreflexive(a: Version)
    ensures !Lt(a, a)
  {
  }

  lemma LtTransitive(a: Version, b: Version, c: Version)
    requires Lt(a, b) && Lt(b, c)
    ensures Lt(a, c)
  {
  }

  lemma LtTotal(a: Version, b: Version)
    ensures Lt(a, b) || a == b || Lt(b, a)
  {
  }
}
