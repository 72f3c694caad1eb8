/** The selection loop of `command_pull`: walk the bucket listing in
    order, pull every object whose second `.`-field after
    `auto-commit-repo` is non-empty and differs from the local instance
    name, skip the rest, and count the pulled ones. */
module Pull {
  import opened PyTypes
  import opened BundleNames
  import Seqs

  /** Python truthiness of the parser's result: `None` is false, and a
      string is true exactly when its length is not zero. */
  predicate Truthy(o: Option<string>)
  {
    o.Some? && o.value != ""
  }

  /** Whether the loop pulls the object `fileName` for the local instance
      `me` (assuming the parser does not raise on it): exactly when the
      object's second field after the prefix names an instance that is
      non-empty and not the local one. */
  predicate Selected(fileName: string, me: string): (b: bool)
    ensures b <==> exists v :: IsSecondField(fileName, v) && v != "" && v != me
  {
    ExtractIffSecondFieldAll(fileName);
    match ExtractInstanceName(fileName)
    case Raise(_) => false
    case Ok(remote) => Truthy(remote) && remote.value != me
  }

  /** Reference definition: the listing entries that are pulled, in
      listing order. It keeps every selected entry and nothing else. */
  function SelectedEntries(listing: seq<string>, me: string): (r: seq<string>)
    ensures |r| <= |listing|
    ensures forall i :: 0 <= i < |r| ==> Selected(r[i], me)
  {
    Seqs.Filter(listing, x => Selected(x, me))
  }

  /** What a pull run reports: the objects it pulled, in order, and
      either the counter it notifies or the exception that ended it. */
  datatype PullReport =
    | Completed(pulled: seq<string>, counter: nat)
    | Failed(pulled: seq<string>, error: Exception)

  /** `command_pull` over a given listing. The run completes exactly when no
      object is named the bare prefix; it then pulls the selected entries in
      listing order and reports their number. Otherwise the parser's
      `IndexError` ends the run at the first such object, after the entries
      selected before it were pulled. */
  method CommandPull(listing: seq<string>, me: string) returns (report: PullReport)
    ensures report.Completed? <==> Prefix !in listing
    ensures report.Completed? ==> report.pulled == SelectedEntries(listing, me)
    ensures report.Completed? ==> report.counter == |report.pulled|
    ensures report.Failed? ==>
      && report.error == IndexError
      && exists k :: 0 <= k < |listing| && listing[k] == Prefix && Prefix !in listing[..k]
                     && report.pulled == SelectedEntries(listing[..k], me)
  {
    var counter: nat := 0;
    var pulled: seq<string> := [];
    var i := 0;
    while i < |listing|
      invariant 0 <= i <= |listing|
      invariant Prefix !in listing[..i]
      invariant pulled == SelectedEntries(listing[..i], me)
      invariant counter == |pulled|
    {
      var fileName := listing[i];
      assert listing[..i + 1] == listing[..i] + [fileName];
      match ExtractInstanceName(fileName) {
        case Raise(e) =>
          assert fileName == Prefix;
          return Failed(pulled, e);
        case Ok(remote) =>
          PullStep(listing[..i], fileName, me, remote);
          if Truthy(remote) && remote.value != me {
            pulled := pulled + [fileName];
            counter := counter + 1;
          }
      }
      i := i + 1;
    }
    assert listing[..i] == listing;
    return Completed(pulled, counter);
  }

  /** Selection distributes over concatenation: each part of the listing
      is processed in order, independently of the other. */
  lemma SelectedEntriesAppend(a: seq<string>, b: seq<string>, me: string)
    ensures SelectedEntries(a + b, me) == SelectedEntries(a, me) + SelectedEntries(b, me)
  {
    Seqs.FilterAppend(a, b, x => Selected(x, me));
  }

  /** One step of the loop: an entry the parser accepts is pulled after
      the earlier ones exactly when the skip test lets it through. */
  lemma PullStep(a: seq<string>, x: string, me: string, remote: Option<string>)
    requires ExtractInstanceName(x) == Ok(remote)
    ensures SelectedEntries(a + [x], me)
      == SelectedEntries(a, me) + (if Truthy(remote) && remote.value != me then [x] else [])
  {
    assert Selected(x, me) == (Truthy(remote) && remote.value != me);
    assert [x][1..] == [];
    assert SelectedEntries([x], me) == if Selected(x, me) then [x] else [];
    SelectedEntriesAppend(a, [x], me);
  }

  /** An object is pulled iff it is listed and selected. */
  lemma SelectedEntriesMembers(listing: seq<string>, me: string, x: string)
    ensures x in SelectedEntries(listing, me) <==> x in listing && Selected(x, me)
  {
    SelectedEntriesCount(listing, me, x);
  }

  /** Every entry is pulled exactly as often as it occurs in the listing if
      it is selected, and never otherwise. */
  lemma SelectedEntriesCount(listing: seq<string>, me: string, x: string)
    ensures multiset(SelectedEntries(listing, me))[x]
      == if Selected(x, me) then multiset(listing)[x] else 0
  {
    Seqs.FilterCount(listing, y => Selected(y, me), x);
  }

  /** An instance never pulls its own bundle, plain or encrypted. */
  lemma NeverPullsOwnBundle(me: string)
    requires Separator !in me
    ensures !Selected(MakeBundleName(me).value, me)
    ensures !Selected(MakeEncBundleName(me).value, me)
  {
    RoundTrip(me);
  }

  /** Every other non-empty instance's bundle is pulled. */
  lemma PullsOtherBundles(other: string, me: string)
    requires Separator !in other
    ensures Selected(MakeEncBundleName(other).value, me) <==> other != "" && other != me
  {
    RoundTrip(other);
  }
}
