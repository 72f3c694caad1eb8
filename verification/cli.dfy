/** The command-line side of the script: the instance name taken from the
    arguments, and the object name `command_push` uploads under. */
module Cli {
  import opened PyTypes
  import opened PyStr
  import opened BundleNames
  import Pull

  /** `sys.argv[3].replace(".", "_")`: the instance name every command
      runs with. It never contains the separator, has the argument's
      length, and keeps every other character in place. */
  function Sanitise(arg: string): (r: string)
    ensures Separator !in r
    ensures |r| == |arg|
    ensures forall i :: 0 <= i < |arg| && arg[i] != Separator ==> r[i] == arg[i]
    ensures forall i :: 0 <= i < |arg| && arg[i] == Separator ==> r[i] == '_'
  {
    ReplaceChar(arg, Separator, '_')
  }

  /** Sanitising twice is sanitising once. */
  lemma SanitiseIdempotent(arg: string)
    ensures Sanitise(Sanitise(arg)) == Sanitise(arg)
  {
    var once := Sanitise(arg);
    assert forall i :: 0 <= i < |once| ==> Sanitise(once)[i] == once[i];
  }

  /** An argument without the separator is taken as it is. */
  lemma SanitiseKeepsDotFree(arg: string)
    requires Separator !in arg
    ensures Sanitise(arg) == arg
  {
    assert forall i :: 0 <= i < |arg| ==> Sanitise(arg)[i] == arg[i];
  }

  /** The object name `command_push` uploads under (the encrypted bundle
      name), or the `RuntimeError` from `make_bundle_name` that aborts the
      push before anything is uploaded. An uploaded object parses back to
      the instance that pushed it. */
  function PushObjectName(instanceName: string): (r: Result<string>)
    ensures r.Raise? <==> Separator in instanceName
    ensures r.Raise? ==> r.error == RuntimeError(DotError)
    ensures r.Ok? ==> r == MakeEncBundleName(instanceName)
    ensures r.Ok? ==> ExtractInstanceName(r.value) == Ok(Some(instanceName))
  {
    match MakeBundleName(instanceName)
    case Raise(e) => Raise(e)
    case Ok(_) =>
      RoundTrip(instanceName);
      MakeEncBundleName(instanceName)
  }

  /** On the command-line path the name checks never fire: both bundle
      names and the pushed object name are built without raising. */
  lemma CliPushNeverRaises(arg: string)
    ensures MakeBundleName(Sanitise(arg)).Ok?
    ensures MakeEncBundleName(Sanitise(arg)).Ok?
    ensures PushObjectName(Sanitise(arg)).Ok?
  {
  }

  /** Between two command-line instances `a` and `b`, `b` pulls the object
      `a` pushed exactly when `a`'s sanitised name is non-empty and differs
      from `b`'s; in particular arguments that differ only in `.` versus
      `_` name one instance and never pull from each other. */
  lemma CliExchange(a: string, b: string)
    ensures Pull.Selected(PushObjectName(Sanitise(a)).value, Sanitise(b))
      <==> Sanitise(a) != "" && Sanitise(a) != Sanitise(b)
  {
  }

  /** Arguments that differ only in `.` versus `_` name one instance, so
      neither pulls what the other pushed. */
  lemma CliDotUnderscoreSameInstance(a: string, b: string)
    requires |a| == |b|
    requires forall i :: 0 <= i < |a| ==>
      a[i] == b[i] || ((a[i] == '.' || a[i] == '_') && (b[i] == '.' || b[i] == '_'))
    ensures Sanitise(a) == Sanitise(b)
    ensures !Pull.Selected(PushObjectName(Sanitise(a)).value, Sanitise(b))
  {
    assert forall i :: 0 <= i < |a| ==> Sanitise(a)[i] == Sanitise(b)[i];
    CliExchange(a, b);
  }
}
