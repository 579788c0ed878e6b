/** The restriction helpers of the app-restrictions screen: the in-place
    normalisation of CHOICE and NULL entries to STRING, the pre-M conversion of
    an entry list into a bundle, and loading the manifest defaults into the
    edited list. */
module ManageAppRestrictions {
  import opened RestrictionEntries

  // ---------------------------------------------------------------------
  // Normalisation of CHOICE and NULL entries
  // ---------------------------------------------------------------------

  predicate IsChoiceOrNull(t: RestrictionType) {
    t == Choice || t == Null
  }

  /** One entry after normalisation: a CHOICE or NULL entry becomes a STRING
      entry with everything else kept; any other entry is left as it is. */
  function NormalizeEntry(e: RestrictionEntry): (r: RestrictionEntry)
    ensures !IsChoiceOrNull(r.kind)
    ensures r == e.(kind := r.kind)
    ensures IsChoiceOrNull(e.kind) ==> r.kind == String
    ensures !IsChoiceOrNull(e.kind) ==> r == e
  {
    if IsChoiceOrNull(e.kind) then e.(kind := String) else e
  }

  /** The list after normalisation, entry by entry. */
  function Normalized(s: seq<RestrictionEntry>): (r: seq<RestrictionEntry>)
    ensures |r| == |s|
  {
    if s == [] then [] else [NormalizeEntry(s[0])] + Normalized(s[1..])
  }

  lemma {:induction false} NormalizedAt(s: seq<RestrictionEntry>, i: nat)
    requires i < |s|
    ensures Normalized(s)[i] == NormalizeEntry(s[i])
  {
    if i > 0 {
      NormalizedAt(s[1..], i - 1);
    }
  }

  /** After normalisation no entry is CHOICE or NULL, and each entry that was
      one of them is now STRING. */
  lemma {:induction false} NormalizedRemovesChoiceAndNull(s: seq<RestrictionEntry>)
    ensures forall i :: 0 <= i < |s| ==> !IsChoiceOrNull(Normalized(s)[i].kind)
    ensures forall i :: 0 <= i < |s| && IsChoiceOrNull(s[i].kind) ==> Normalized(s)[i].kind == String
  {
    forall i | 0 <= i < |s|
      ensures !IsChoiceOrNull(Normalized(s)[i].kind)
      ensures IsChoiceOrNull(s[i].kind) ==> Normalized(s)[i].kind == String
    {
      NormalizedAt(s, i);
    }
  }

  /** Normalisation keeps the length and order of the list, changes only the
      type tag of an entry, and leaves entries of every other type untouched. */
  lemma {:induction false} NormalizedChangesOnlyType(s: seq<RestrictionEntry>)
    ensures |Normalized(s)| == |s|
    ensures forall i :: 0 <= i < |s| ==> Normalized(s)[i] == s[i].(kind := Normalized(s)[i].kind)
    ensures forall i :: 0 <= i < |s| && !IsChoiceOrNull(s[i].kind) ==> Normalized(s)[i] == s[i]
  {
    forall i | 0 <= i < |s|
      ensures Normalized(s)[i] == s[i].(kind := Normalized(s)[i].kind)
      ensures !IsChoiceOrNull(s[i].kind) ==> Normalized(s)[i] == s[i]
    {
      NormalizedAt(s, i);
    }
  }

  /** Normalising twice gives the same list as normalising once. */
  lemma {:induction false} NormalizedIdempotent(s: seq<RestrictionEntry>)
    ensures Normalized(Normalized(s)) == Normalized(s)
  {
    if s != [] {
      var t := Normalized(s);
      assert t[1..] == Normalized(s[1..]);
      NormalizedIdempotent(s[1..]);
    }
  }

  /** Rewrites, in place, the type of every CHOICE or NULL entry to STRING. */
  method ConvertTypeChoiceAndNullToString(entries: array<RestrictionEntry>)
    modifies entries
    ensures entries[..] == Normalized(old(entries[..]))
  {
    for i := 0 to entries.Length
      invariant forall k :: 0 <= k < i ==> entries[k] == NormalizeEntry(old(entries[k]))
      invariant forall k :: i <= k < entries.Length ==> entries[k] == old(entries[k])
    {
      var entry := entries[i];
      if entry.kind == Choice || entry.kind == Null {
        entries[i] := entry.(kind := String);
      }
    }
    ghost var was := old(entries[..]);
    forall k | 0 <= k < entries.Length
      ensures entries[..][k] == Normalized(was)[k]
    {
      NormalizedAt(was, k);
    }
  }

  // ---------------------------------------------------------------------
  // Pre-M conversion of an entry list into a bundle
  // ---------------------------------------------------------------------

  /** The value the fallback stores for an entry, chosen by its type tag;
      `None` for a tag the fallback does not recognise. */
  function EntryValue(e: RestrictionEntry): Option<Value> {
    match e.kind
    case Boolean => Some(BoolValue(e.selectedState))
    case Integer => Some(IntValue(e.intValue))
    case String => Some(StringValue(e.selectedString))
    case Null => Some(StringValue(e.selectedString))
    case Choice => Some(StringArrayValue(e.allSelectedStrings))
    case MultiSelect => Some(StringArrayValue(e.allSelectedStrings))
    case Other(_) => None
  }

  predicate Supported(e: RestrictionEntry) {
    !e.kind.Other?
  }

  /** The outcome of the fallback conversion: entries are put into a fresh
      bundle in list order, and the first entry of an unsupported type aborts
      the conversion with an error. */
  function BundleOf(s: seq<RestrictionEntry>): Result<Bundle>
    decreases |s|
  {
    if s == [] then Ok(map[])
    else
      var prev := BundleOf(s[..|s| - 1]);
      var e := s[|s| - 1];
      if prev.Err? then prev
      else match EntryValue(e)
        case None => Err(UnsupportedType(e.kind))
        case Some(v) => Ok(prev.value[e.key := v])
  }

  /** The conversion fails exactly when some entry has an unsupported type. */
  lemma {:induction false} BundleOfFailsIff(s: seq<RestrictionEntry>)
    ensures BundleOf(s).Err? <==> exists i :: 0 <= i < |s| && !Supported(s[i])
  {
    if s != [] {
      var n := |s| - 1;
      var p := s[..n];
      BundleOfFailsIff(p);
      assert forall i :: 0 <= i < n ==> p[i] == s[i];
      if BundleOf(p).Err? {
        var i :| 0 <= i < |p| && !Supported(p[i]);
        assert !Supported(s[i]);
      }
    }
  }

  /** A failed conversion reports the type of the first unsupported entry. */
  lemma {:induction false} BundleOfErrorIsFirst(s: seq<RestrictionEntry>)
    requires BundleOf(s).Err?
    ensures exists i ::
              && 0 <= i < |s|
              && !Supported(s[i])
              && BundleOf(s).error == UnsupportedType(s[i].kind)
              && forall j :: 0 <= j < i ==> Supported(s[j])
  {
    var n := |s| - 1;
    var p := s[..n];
    assert forall i :: 0 <= i < n ==> p[i] == s[i];
    if BundleOf(p).Err? {
      BundleOfErrorIsFirst(p);
      var i :| 0 <= i < |p| && !Supported(p[i]) && BundleOf(p).error == UnsupportedType(p[i].kind)
        && forall j :: 0 <= j < i ==> Supported(p[j]);
      assert !Supported(s[i]);
    } else {
      BundleOfFailsIff(p);
      assert forall j :: 0 <= j < n ==> Supported(s[j]);
    }
  }

  /** Two unsupported entries with different tags: the error names the tag
      of the first one, as the exception thrown at that entry does. */
  lemma FirstUnsupportedTagReported(key: string, first: int, second: int)
    ensures var e := RestrictionEntry(key, Other(first), false, 0, "", []);
      BundleOf([e, e.(kind := Other(second))]) == Err(UnsupportedType(Other(first)))
  {
    var e := RestrictionEntry(key, Other(first), false, 0, "", []);
    var s := [e, e.(kind := Other(second))];
    assert !Supported(s[0]);
    BundleOfFailsIff(s);
    BundleOfErrorIsFirst(s);
  }

  /** Once a prefix of the list fails to convert, the whole list fails with
      the same error: nothing after the aborting entry is looked at. */
  lemma {:induction false} BundleOfAbortsAt(s: seq<RestrictionEntry>, k: nat)
    requires k <= |s|
    requires BundleOf(s[..k]).Err?
    ensures BundleOf(s) == BundleOf(s[..k])
    decreases |s| - k
  {
    if k < |s| {
      var p := s[..|s| - 1];
      assert p[..k] == s[..k];
      BundleOfAbortsAt(p, k);
    } else {
      assert s[..k] == s;
    }
  }

  /** On success the bundle's key set is exactly the set of entry keys. */
  lemma {:induction false} BundleOfKeys(s: seq<RestrictionEntry>)
    requires BundleOf(s).Ok?
    ensures BundleOf(s).value.Keys == set i | 0 <= i < |s| :: s[i].key
  {
    if s != [] {
      var n := |s| - 1;
      var p := s[..n];
      BundleOfKeys(p);
      assert forall i :: 0 <= i < n ==> p[i] == s[i];
      assert (set i | 0 <= i < |s| :: s[i].key) == (set i | 0 <= i < n :: p[i].key) + {s[n].key};
    }
  }

  /** On success the key of an entry holds the value of the last entry with
      that key: later entries overwrite earlier ones. */
  lemma {:induction false} BundleOfLastWins(s: seq<RestrictionEntry>, i: nat)
    requires BundleOf(s).Ok?
    requires i < |s|
    requires forall j :: i < j < |s| ==> s[j].key != s[i].key
    ensures Supported(s[i])
    ensures s[i].key in BundleOf(s).value
    ensures Some(BundleOf(s).value[s[i].key]) == EntryValue(s[i])
  {
    var n := |s| - 1;
    var p := s[..n];
    assert BundleOf(p).Ok?;
    if i < n {
      assert p[i] == s[i];
      BundleOfLastWins(p, i);
    }
  }

  /** On success, the key of the last entry with a given key holds the field
      that entry's type selects: the selected state for BOOLEAN, the int value
      for INTEGER, the selected string for STRING and NULL, and the array of
      all selected strings for CHOICE and MULTI_SELECT. */
  lemma {:induction false} BundleOfStoresByType(s: seq<RestrictionEntry>, i: nat)
    requires BundleOf(s).Ok?
    requires i < |s|
    requires forall j :: i < j < |s| ==> s[j].key != s[i].key
    ensures var b, e := BundleOf(s).value, s[i];
      && e.key in b
      && (e.kind == Boolean ==> b[e.key] == BoolValue(e.selectedState))
      && (e.kind == Integer ==> b[e.key] == IntValue(e.intValue))
      && (e.kind == String || e.kind == Null ==> b[e.key] == StringValue(e.selectedString))
      && (e.kind == Choice || e.kind == MultiSelect ==> b[e.key] == StringArrayValue(e.allSelectedStrings))
  {
    BundleOfLastWins(s, i);
  }

  /** The pre-M fallback of convertRestrictionsToBundle: builds a fresh bundle
      with one put per entry, in list order, and fails on the first entry of
      an unsupported type. */
  method ConvertRestrictionsToBundle(entries: seq<RestrictionEntry>) returns (r: Result<Bundle>)
    ensures r == BundleOf(entries)
  {
    var bundle: Bundle := map[];
    for i := 0 to |entries|
      invariant BundleOf(entries[..i]) == Ok(bundle)
    {
      var entry := entries[i];
      assert entries[..i + 1][..i] == entries[..i];
      match entry.kind {
        case Boolean =>
          bundle := bundle[entry.key := BoolValue(entry.selectedState)];
        case Integer =>
          bundle := bundle[entry.key := IntValue(entry.intValue)];
        case String =>
          bundle := bundle[entry.key := StringValue(entry.selectedString)];
        case Null =>
          bundle := bundle[entry.key := StringValue(entry.selectedString)];
        case Choice =>
          bundle := bundle[entry.key := StringArrayValue(entry.allSelectedStrings)];
        case MultiSelect =>
          bundle := bundle[entry.key := StringArrayValue(entry.allSelectedStrings)];
        case Other(_) =>
          BundleOfAbortsAt(entries, i + 1);
          return Err(UnsupportedType(entry.kind));
      }
    }
    assert entries[..|entries|] == entries;
    return Ok(bundle);
  }

  /** Converting a normalised list succeeds exactly when converting the
      original list does: normalisation never touches an unsupported entry. */
  lemma {:induction false} NormalizedBundleSucceeds(s: seq<RestrictionEntry>)
    ensures BundleOf(Normalized(s)).Ok? <==> BundleOf(s).Ok?
  {
    var t := Normalized(s);
    forall j | 0 <= j < |s| ensures Supported(t[j]) <==> Supported(s[j]) {
      NormalizedAt(s, j);
    }
    BundleOfFailsIff(s);
    BundleOfFailsIff(t);
  }

  /** Converting a normalised list yields the same key set as converting the
      original list. */
  lemma {:induction false} NormalizedBundleKeys(s: seq<RestrictionEntry>)
    requires BundleOf(s).Ok?
    ensures BundleOf(Normalized(s)).Ok?
    ensures BundleOf(Normalized(s)).value.Keys == BundleOf(s).value.Keys
  {
    var t := Normalized(s);
    NormalizedBundleSucceeds(s);
    NormalizedChangesOnlyType(s);
    BundleOfKeys(s);
    BundleOfKeys(t);
    assert forall j :: 0 <= j < |s| ==> t[j].key == s[j].key;
    assert (set j | 0 <= j < |t| :: t[j].key) == (set j | 0 <= j < |s| :: s[j].key);
  }

  /** A CHOICE or NULL entry of the manifest list, once normalised and
      converted, is stored as its selected string; in particular a CHOICE
      entry is no longer stored as its array of selected strings. */
  lemma {:induction false} NormalizedBundleChoiceAsString(s: seq<RestrictionEntry>, i: nat)
    requires BundleOf(s).Ok?
    requires i < |s|
    requires forall j :: i < j < |s| ==> s[j].key != s[i].key
    requires IsChoiceOrNull(s[i].kind)
    ensures BundleOf(Normalized(s)).Ok?
    ensures s[i].key in BundleOf(Normalized(s)).value
    ensures BundleOf(Normalized(s)).value[s[i].key] == StringValue(s[i].selectedString)
  {
    var t := Normalized(s);
    NormalizedBundleSucceeds(s);
    NormalizedAt(s, i);
    forall j | i < j < |s| ensures t[j].key != t[i].key {
      NormalizedAt(s, j);
    }
    BundleOfLastWins(t, i);
  }

  // ---------------------------------------------------------------------
  // Loading the manifest defaults into the edited list
  // ---------------------------------------------------------------------

  /** The part of the restrictions screen this model keeps: the list of
      entries being edited. */
  class AppRestrictionsScreen {
    var restrictionEntries: seq<RestrictionEntry>

    constructor (entries: seq<RestrictionEntry>)
      ensures restrictionEntries == entries
    {
      restrictionEntries := entries;
    }

    /** Loads the manifest's default restrictions of a package, normalised,
        into the edited list. `manifest` is what the platform's manifest
        lookup returned for the package (`None` for no restrictions). An
        empty package name, or no restrictions found, leaves the list as it was. */
    method LoadManifestAppRestrictions(pkgName: string, manifest: Option<seq<RestrictionEntry>>)
      modifies this
      ensures pkgName == [] || manifest.None? ==> restrictionEntries == old(restrictionEntries)
      ensures pkgName != [] && manifest.Some? ==> restrictionEntries == Normalized(manifest.value)
    {
      if pkgName != [] {
        if manifest.Some? {
          var entries := new RestrictionEntry[|manifest.value|](i requires 0 <= i < |manifest.value| => manifest.value[i]);
          assert entries[..] == manifest.value;
          ConvertTypeChoiceAndNullToString(entries);
          restrictionEntries := entries[..];
        }
      }
    }
  }
}
