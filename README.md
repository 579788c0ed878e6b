# TestDPC application-restriction helpers in Dafny

TestDPC is a sample device-policy controller for Android. Its screen for
managing application restrictions (`ManageAppRestrictionsFragment`) holds the
only logic of the app that does not simply forward to the platform. This
project models that logic:

- **Normalisation** (`convertTypeChoiceAndNullToString`). The app loads a
  package's default restrictions from its manifest. It then rewrites, in
  place, the type of every CHOICE or NULL restriction entry to STRING.
  - Model: `ConvertTypeChoiceAndNullToString` works on an
    `array<RestrictionEntry>` and is proved equal to the specification
    function `Normalized`.
  - Lemmas about `Normalized` state that no CHOICE or NULL entry survives,
    that only the type tag changes, and that the rewrite is idempotent.
- **Bundle conversion** (`convertRestrictionsToBundle`, the fallback used
  before Android M). It puts each entry into a fresh bundle, choosing the
  stored field by the entry's type tag. An entry of an unrecognised type
  aborts the conversion with `IllegalArgumentException`.
  - Model: `ConvertRestrictionsToBundle` returns a `Result` (the exception
    becomes `Err(UnsupportedType(t))`) and is proved equal to the left-fold
    specification `BundleOf`.
  - Lemmas about `BundleOf`: when the conversion fails (and with which
    error), the exact key set of the bundle, last-entry-wins for repeated
    keys, the value stored per type, and how conversion interacts with
    normalisation.
- **Loading manifest defaults** (`loadManifestAppRestrictions`).
  - Model: `AppRestrictionsScreen` holds the list of entries being edited.
    `LoadManifestAppRestrictions` replaces that list with the normalised
    manifest list.
  - It does nothing for an empty package name, or when the platform found
    no manifest restrictions.

Data model (`restriction_entry.dfy`):
- `RestrictionEntry` is a datatype. Its type tag is the field `kind`, since
  `type` is a Dafny keyword. Its tag type `RestrictionType` has the six tags
  the fallback knows, plus `Other(tag)` for every other tag, carrying the
  platform's numeric tag.
- `Bundle` is `map<string, Value>`.
- Integer values are the 32-bit `Int32`, the width of Java's `int`.

Parameters and assumptions:
- The platform's manifest lookup (`RestrictionsManager.getManifestRestrictions`)
  becomes the parameter `manifest` of `LoadManifestAppRestrictions`. `None`
  stands for the null list, whose normalisation the source aborts with a
  caught `NullPointerException`.
- `loadAppRestrictionsList` belongs to `BaseAppRestrictionsFragment`, which is
  not part of this model. Loading a list is modelled as replacing the edited
  list with it.

## Model

| member | source | states |
|---|---|---|
| `ManageAppRestrictions.NormalizeEntry` | app/src/main/java/com/sample/android/testdpc/profilepolicy/apprestrictions/ManageAppRestrictionsFragment.java:94-96 | the entry is never CHOICE or NULL afterwards; a CHOICE or NULL entry becomes STRING; only the type tag may change; an entry of any other type is returned unchanged |
| `ManageAppRestrictions.Normalized` | app/src/main/java/com/sample/android/testdpc/profilepolicy/apprestrictions/ManageAppRestrictionsFragment.java:92-99 | normalising a list keeps its length |
| `ManageAppRestrictions.NormalizedAt` | app/src/main/java/com/sample/android/testdpc/profilepolicy/apprestrictions/ManageAppRestrictionsFragment.java:93-97 | each position of the normalised list holds the normalised entry from the same position: order is kept and entries are handled one by one |
| `ManageAppRestrictions.NormalizedRemovesChoiceAndNull` | app/src/main/java/com/sample/android/testdpc/profilepolicy/apprestrictions/ManageAppRestrictionsFragment.java:93-97 | after normalisation no entry has type CHOICE or NULL, and every entry that had one of them now has type STRING |
| `ManageAppRestrictions.NormalizedChangesOnlyType` | app/src/main/java/com/sample/android/testdpc/profilepolicy/apprestrictions/ManageAppRestrictionsFragment.java:92-99 | length and order are kept; each entry differs from the original at most in its type tag (key and every value field kept); entries of other types are untouched |
| `ManageAppRestrictions.NormalizedIdempotent` | app/src/main/java/com/sample/android/testdpc/profilepolicy/apprestrictions/ManageAppRestrictionsFragment.java:94-96 | normalising twice gives the same list as normalising once |
| `ManageAppRestrictions.ConvertTypeChoiceAndNullToString` | app/src/main/java/com/sample/android/testdpc/profilepolicy/apprestrictions/ManageAppRestrictionsFragment.java:92-99 | the in-place loop leaves the array equal to the normalised original list |
| `ManageAppRestrictions.BundleOfFailsIff` | app/src/main/java/com/sample/android/testdpc/profilepolicy/apprestrictions/ManageAppRestrictionsFragment.java:131-150 | the conversion fails if and only if some entry has a type outside the six supported ones |
| `ManageAppRestrictions.BundleOfErrorIsFirst` | app/src/main/java/com/sample/android/testdpc/profilepolicy/apprestrictions/ManageAppRestrictionsFragment.java:147-149 | a failed conversion reports the type of the first entry whose type is unsupported |
| `ManageAppRestrictions.FirstUnsupportedTagReported` | app/src/main/java/com/sample/android/testdpc/profilepolicy/apprestrictions/ManageAppRestrictionsFragment.java:147-149 | for a list of two unsupported entries with any two tags, the error carries the first entry's tag, not the second's |
| `ManageAppRestrictions.BundleOfAbortsAt` | app/src/main/java/com/sample/android/testdpc/profilepolicy/apprestrictions/ManageAppRestrictionsFragment.java:147-149 | once the conversion of a prefix has thrown, the whole conversion ends with that same error; no bundle is returned |
| `ManageAppRestrictions.BundleOfKeys` | app/src/main/java/com/sample/android/testdpc/profilepolicy/apprestrictions/ManageAppRestrictionsFragment.java:130-152 | on success the bundle's key set is exactly the set of entry keys |
| `ManageAppRestrictions.BundleOfLastWins` | app/src/main/java/com/sample/android/testdpc/profilepolicy/apprestrictions/ManageAppRestrictionsFragment.java:131-151 | on success the last entry with a given key is supported, and its value is the one stored under that key (later puts overwrite earlier ones) |
| `ManageAppRestrictions.BundleOfStoresByType` | app/src/main/java/com/sample/android/testdpc/profilepolicy/apprestrictions/ManageAppRestrictionsFragment.java:133-146 | BOOLEAN stores the selected state, INTEGER the int value, STRING and NULL the selected string, CHOICE and MULTI_SELECT the array of all selected strings |
| `ManageAppRestrictions.ConvertRestrictionsToBundle` | app/src/main/java/com/sample/android/testdpc/profilepolicy/apprestrictions/ManageAppRestrictionsFragment.java:130-152 | the loop with one put per entry, and its early throw, returns exactly the specified outcome `BundleOf` |
| `ManageAppRestrictions.NormalizedBundleSucceeds` | app/src/main/java/com/sample/android/testdpc/profilepolicy/apprestrictions/ManageAppRestrictionsFragment.java:92-152 | a normalised list converts successfully if and only if the original list does |
| `ManageAppRestrictions.NormalizedBundleKeys` | app/src/main/java/com/sample/android/testdpc/profilepolicy/apprestrictions/ManageAppRestrictionsFragment.java:92-152 | a normalised list converts to a bundle with the same key set as the original list |
| `ManageAppRestrictions.NormalizedBundleChoiceAsString` | app/src/main/java/com/sample/android/testdpc/profilepolicy/apprestrictions/ManageAppRestrictionsFragment.java:139-146 | a CHOICE or NULL entry loaded from the manifest is saved as its selected string, not as a string array |
| `ManageAppRestrictions.AppRestrictionsScreen.LoadManifestAppRestrictions` | app/src/main/java/com/sample/android/testdpc/profilepolicy/apprestrictions/ManageAppRestrictionsFragment.java:74-87 | an empty package name or missing manifest restrictions leave the edited list unchanged; otherwise the edited list becomes the normalised manifest list |

## Left out

- The Android M and later branch of `convertRestrictionsToBundle`
  (ManageAppRestrictionsFragment.java:127-129). It delegates to
  `RestrictionsManager.convertRestrictionsToBundle`, whose body is platform
  code. The model is the fallback only, so the SDK-version test is not modelled.
- All `DevicePolicyManager` calls: `getApplicationRestrictions` in
  `loadData`, and `setApplicationRestrictions` in `onClick`. They are OS
  behaviour; `onClick`'s save path is therefore modelled only through the
  conversion it calls.
- `loadData` (ManageAppRestrictionsFragment.java:58-65): behind the
  empty-name guard it reads the platform's restrictions and passes them to
  `convertBundleToRestrictions` and `loadAppRestrictionsList`, base-class
  code that is not part of this model.
- `getCurrentAppName` (ManageAppRestrictionsFragment.java:67-72): it only
  reads an app label from the platform.
- Java `null` values:
  - a null package name (which `TextUtils.isEmpty` treats like an empty one);
  - a null entry key, which `Bundle` accepts in the puts of lines 134-145;
    the model's keys are never null;
  - a null selected string or string array inside an entry.
- Null elements inside a manifest list. The source would throw a caught
  `NullPointerException` part-way through normalisation and then load the
  partly normalised list. The model's lists contain no nulls.
- Numeric tags of the six recognised types. They are platform constants;
  the model names those types by case, and only an unrecognised type
  (`Other(tag)`) carries its number. The error message text itself is not
  modelled; the error carries the unsupported type with its tag.
- Object identity of entries. The source mutates shared `RestrictionEntry`
  objects; the model updates array slots holding entry values, so aliasing
  between entries is not captured.
- UI plumbing: the view, button and spinner wiring, toasts, and the other
  files of the app (device-owner screens, uninstall blocking, app lists,
  notification and timestamp helpers). They consist of platform calls.
