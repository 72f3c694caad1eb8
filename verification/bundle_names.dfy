/** Names of the objects the sync script keeps in the bucket: one bundle
    per instance, `auto-commit-repo.<instance>.bundle[.enc]`, and the
    parser that recovers the instance from an object name. */
module BundleNames {
  import opened PyTypes
  import opened PyStr

  /** Field separator of object names; an instance name may not contain it. */
  const Separator: char := '.'
  /** First field of every object name the script owns. */
  const Prefix: string := "auto-commit-repo"
  const BundleExt: string := "bundle"
  const EncExt: string := "enc"
  const DotError: string := "Instance name must not contain '.'"

  /** `make_bundle_name`: raises exactly when the instance name contains
      the separator; otherwise the name is the three fields prefix,
      instance, `bundle`. */
  function MakeBundleName(instanceName: string): (r: Result<string>)
    ensures r.Raise? <==> Separator in instanceName
    ensures r.Raise? ==> r.error == RuntimeError(DotError)
    ensures r.Ok? ==> Split(r.value, Separator) == [Prefix, instanceName, BundleExt]
  {
    if Separator in instanceName then Raise(RuntimeError(DotError))
    else
      SplitThree(Prefix, instanceName, BundleExt, Separator);
      Ok(Prefix + [Separator] + instanceName + [Separator] + BundleExt)
  }

  /** `make_enc_bundle_name`: same error condition; on success it is the
      plain bundle name with a fourth field `enc`. */
  function MakeEncBundleName(instanceName: string): (r: Result<string>)
    ensures r.Raise? <==> Separator in instanceName
    ensures r.Raise? ==> r.error == RuntimeError(DotError)
    ensures r.Ok? ==> Split(r.value, Separator) == [Prefix, instanceName, BundleExt, EncExt]
    ensures r.Ok? ==> r.value == MakeBundleName(instanceName).value + ".enc"
  {
    if Separator in instanceName then Raise(RuntimeError(DotError))
    else
      SplitFour(Prefix, instanceName, BundleExt, EncExt, Separator);
      Ok(Prefix + [Separator] + instanceName + [Separator] + BundleExt + [Separator] + EncExt)
  }

  /** The names spelled out as the string literals the script formats. */
  lemma NameLiterals(x: string)
    requires Separator !in x
    ensures MakeBundleName(x) == Ok("auto-commit-repo." + x + ".bundle")
    ensures MakeEncBundleName(x) == Ok("auto-commit-repo." + x + ".bundle.enc")
  {
    assert "auto-commit-repo." == Prefix + [Separator];
    assert ".bundle" == [Separator] + BundleExt;
    assert ".bundle.enc" == [Separator] + BundleExt + [Separator] + EncExt;
    var plain := Prefix + [Separator] + x + [Separator] + BundleExt;
    assert plain == "auto-commit-repo." + x + ".bundle";
    assert MakeBundleName(x).value == plain;
    assert MakeEncBundleName(x).value == plain + [Separator] + EncExt;
    assert plain + [Separator] + EncExt == "auto-commit-repo." + x + ".bundle.enc";
  }

  /** `v` is the second field of `name` and the first field is the prefix:
      `name` starts with `auto-commit-repo.`, then `v`, which is
      separator-free and ends at the next separator or at the end. */
  predicate IsSecondField(name: string, v: string)
  {
    && Prefix + [Separator] + v <= name
    && Separator !in v
    && (|name| == |Prefix| + 1 + |v| || name[|Prefix| + 1 + |v|] == Separator)
  }

  /** `extract_instance_name`: `None` when the first field is not the
      prefix, `IndexError` when the name is the bare prefix (there is no
      second field), otherwise the second field. */
  function ExtractInstanceName(bundleName: string): (r: Result<Option<string>>)
    ensures r.Raise? <==> bundleName == Prefix
    ensures r.Raise? ==> r.error == IndexError
    ensures r == Ok(None) <==> bundleName != Prefix && !(Prefix + [Separator] <= bundleName)
    ensures r.Ok? && r.value.Some? ==> IsSecondField(bundleName, r.value.value)
  {
    var parts := Split(bundleName, Separator);
    HeadField(bundleName, Separator, Prefix);
    if parts[0] != Prefix then Ok(None)
    else if |parts| < 2 then Raise(IndexError)
    else
      SecondFieldOfSplit(bundleName);
      Ok(Some(parts[1]))
  }

  /** When the first field is the prefix and there is a second field, that
      field satisfies `IsSecondField`. */
  lemma SecondFieldOfSplit(name: string)
    requires Split(name, Separator)[0] == Prefix
    requires |Split(name, Separator)| > 1
    ensures IsSecondField(name, Split(name, Separator)[1])
  {
    SplitTail(name, Separator);
    var rest := name[|Prefix| + 1..];
    var v := Split(rest, Separator)[0];
    assert name == Prefix + [Separator] + rest;
    assert v <= rest;
  }

  /** The second field of a name is unique. */
  lemma {:induction false} SecondFieldUnique(name: string, v: string, w: string)
    requires IsSecondField(name, v) && IsSecondField(name, w)
    ensures v == w
  {
    var rest := name[|Prefix| + 1..];
    assert name == Prefix + [Separator] + rest;
    assert v <= rest && w <= rest;
    HeadField(rest, Separator, v);
    HeadField(rest, Separator, w);
  }

  /** The parser returns `v` exactly when `v` is the second field of a
      name whose first field is the prefix; later fields are ignored. */
  lemma ExtractIffSecondField(name: string, v: string)
    ensures ExtractInstanceName(name) == Ok(Some(v)) <==> IsSecondField(name, v)
  {
    if IsSecondField(name, v) {
      var r := ExtractInstanceName(name);
      assert |name| > |Prefix|;
      assert r.Ok? && r.value.Some?;
      SecondFieldUnique(name, v, r.value.value);
    }
  }

  /** `ExtractIffSecondField` for every candidate field at once. */
  lemma ExtractIffSecondFieldAll(name: string)
    ensures forall v :: ExtractInstanceName(name) == Ok(Some(v)) <==> IsSecondField(name, v)
  {
    forall v
      ensures ExtractInstanceName(name) == Ok(Some(v)) <==> IsSecondField(name, v)
    {
      ExtractIffSecondField(name, v);
    }
  }

  /** Round trip: the parser recovers every separator-free instance name
      from both of its bundle names. */
  lemma RoundTrip(x: string)
    requires Separator !in x
    ensures ExtractInstanceName(MakeBundleName(x).value) == Ok(Some(x))
    ensures ExtractInstanceName(MakeEncBundleName(x).value) == Ok(Some(x))
  {
  }

  /** Fields after the instance field play no part in parsing. */
  lemma ExtractIgnoresLaterFields(x: string, rest: string)
    requires Separator !in x
    ensures ExtractInstanceName(Prefix + [Separator] + x) == Ok(Some(x))
    ensures ExtractInstanceName(Prefix + [Separator] + x + [Separator] + rest) == Ok(Some(x))
  {
    ExtractIffSecondField(Prefix + [Separator] + x, x);
    ExtractIffSecondField(Prefix + [Separator] + x + [Separator] + rest, x);
  }
}
