/** Three-part versions as the release scripts read and write them. */
module Versions {
  import opened Text

  datatype Version = Version(major: nat, minor: nat, patch: nat)

  /** Python's `<` on the triples. */
  predicate Below(a: Version, b: Version) {
    || a.major < b.major
    || (a.major == b.major && a.minor < b.minor)
    || (a.major == b.major && a.minor == b.minor && a.patch < b.patch)
  }

  /** `text.split(".")`. */
  function Parts(text: string): (r: seq<string>)
    ensures |r| > 0
    decreases |text|
  {
    if text == "" then [""]
    else
      var r := Parts(text[1..]);
      if text[0] == '.' then [""] + r else [[text[0]] + r[0]] + r[1..]
  }

  predicate IsNumeral(part: string) { part != "" && AllDigits(part) }

  /** `_version_triple` (scripts/check_mcp_pin_drift.py:381-386). */
  function VersionTriple(text: string): Option<Version> {
    var r := Parts(text);
    if |r| == 3 && IsNumeral(r[0]) && IsNumeral(r[1]) && IsNumeral(r[2])
    then Some(Version(ParseDecimal(r[0]), ParseDecimal(r[1]), ParseDecimal(r[2]))) else None
  }

  /** `"%d.%d.%d" % triple`. */
  function TextOf(v: Version): string {
    Decimal(v.major) + "." + Decimal(v.minor) + "." + Decimal(v.patch)
  }

  lemma {:induction false} PartsOfOne(a: string)
    requires '.' !in a
    ensures Parts(a) == [a]
  {
    if a != "" {
      PartsOfOne(a[1..]);
      assert a[0] in a && [a[0]] + a[1..] == a;
    }
  }

  lemma {:induction false} PartsOfMore(a: string, rest: string)
    requires '.' !in a
    ensures Parts(a + "." + rest) == [a] + Parts(rest)
  {
    var text := a + "." + rest;
    if a == "" {
      assert text[0] == '.' && text[1..] == rest;
    } else {
      assert text[1..] == a[1..] + "." + rest;
      PartsOfMore(a[1..], rest);
      assert text[0] == a[0] && a[0] in a && [a[0]] + a[1..] == a;
    }
  }

  lemma TripleOfText(v: Version)
    ensures VersionTriple(TextOf(v)) == Some(v)
  {
    var a, b, c := Decimal(v.major), Decimal(v.minor), Decimal(v.patch);
    assert '.' !in a && '.' !in b && '.' !in c;
    assert TextOf(v) == a + "." + (b + "." + c);
    PartsOfMore(a, b + "." + c);
    PartsOfMore(b, c);
    PartsOfOne(c);
    ParseOfDecimal(v.major);
    ParseOfDecimal(v.minor);
    ParseOfDecimal(v.patch);
  }

  /** A three-part version is written with digits and dots only. */
  lemma {:induction false} PlainParts(text: string, k: nat)
    requires k < |text| && forall i :: 0 <= i < |Parts(text)| ==> AllDigits(Parts(text)[i])
    ensures IsDigit(text[k]) || text[k] == '.'
    decreases |text|
  {
    var r := Parts(text[1..]);
    if text[0] == '.' {
      assert Parts(text)[1..] == r;
      assert forall i :: 0 <= i < |r| ==> r[i] == Parts(text)[i + 1];
    } else {
      var first := Parts(text)[0];
      assert first[0] == text[0] && first[1..] == r[0];
      assert forall i :: 0 <= i < |r[0]| ==> r[0][i] == first[i + 1];
      assert forall i :: 1 <= i < |r| ==> r[i] == Parts(text)[i];
    }
    if k > 0 { PlainParts(text[1..], k - 1); }
  }

  lemma TriplePlain(text: string)
    ensures VersionTriple(text).Some? ==> forall k :: 0 <= k < |text| ==> IsDigit(text[k]) || text[k] == '.'
  {
    forall k | VersionTriple(text).Some? && 0 <= k < |text| ensures IsDigit(text[k]) || text[k] == '.' {
      PlainParts(text, k);
    }
  }
}
