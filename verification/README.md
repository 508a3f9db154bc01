# zSMTH-Android settings cache and image-grid adapter, in Dafny

This project models two pieces of the zSMTH-Android forum client.

**The settings cache** (`Settings.java`) keeps one in-memory field per
preference key: twelve flags, four strings, and the last launched version.
Each field is loaded once from the platform's preference store with a fixed
default. Each setter writes its key through to the store when the value
changes; a string setter also writes when the cached string is null, even
if the new value is null too. Here the cache is an immutable `Settings` record holding the flags
(a total `map<BoolKey, bool>`), the strings (nullable, a total
`map<StringKey, Nullable<string>>`), the version, and the store it mirrors.
The store is a `map<string, Value>` plus a log of committed edits, and the
length of that log counts writes. The twelve boolean setters are one function,
`SetFlag`, over the enumeration `BoolKey`. The four string setters are one
function, `SetText`, over `StringKey`. `KeyName` gives each setting's key
exactly as the source spells it. The central invariant is `Coherent`: every
flag and the version equal what loading their key gives, every non-null
string equals its loaded value, and a null string means its key is absent
from the store. Loading
establishes it, and every operation keeps it.

**The image-grid adapter** (`ImageGridAdapter.java`) of the multi-image
picker holds two ordered lists: all images, and selected images. It can also
show a leading camera cell. The model covers the selection toggle, the default
selection by case-insensitive path lookup, `setData`, and the camera-cell
offset in `getCount`/`getItem`/`getItemViewType`. It also covers the two
decisions `bindData` makes: which selection overlay to show, and whether to
reload the thumbnail. The lists keep `java.util.List` semantics (module
`Lists`): they may hold duplicates, and `remove` drops only the first equal
element.

Modules: `Lang` (nullable references, Java exceptions, `Result`),
`Lists`, `CaseFold`, `Preferences`, `AppSettings`, `ImageGrid`.

Two consequences of the code are worth stating up front:
- `select` does not consult the displayed images, so the selection can hold
  images the grid does not show (`SelectOutsideImages`).
- Toggling the same image twice gives back the original selection only when
  the image was not selected before (`SelectTwiceAbsent`). For a selected
  image, the second toggle appends it at the end. The set of selected images
  is restored, but their order is not (`SelectTwicePresent`,
  `SelectTwiceReorders`).

## Model

| member | source | states |
|---|---|---|
| AppSettings.SetFlag | app/src/main/java/com/zfdang/zsmth_android/Settings.java:60-66 | A boolean setter (same pattern at 74-80, 91-97, 123-129, 158-164, 171-177, 207-277): afterwards the getter returns the argument. It writes exactly one edit, the new value under the setting's own key, iff the value differs from the cached one. Otherwise the record is unchanged. No other field and no other store key changes. |
| AppSettings.SetText | app/src/main/java/com/zfdang/zsmth_android/Settings.java:32-38 | A string setter (same pattern at 46-52, 109-115, 142-148): the getter returns the argument afterwards. It writes iff the cached value is null or differs from the argument (a null argument removes the key). A non-null equal value causes no write and no change. No other field or store key changes. |
| AppSettings.KeyNamesDistinct | app/src/main/java/com/zfdang/zsmth_android/Settings.java:27-267 | The seventeen preference keys are pairwise distinct, so writing one setting never disturbs another's entry. |
| AppSettings.SetFlagKeepsCoherent | app/src/main/java/com/zfdang/zsmth_android/Settings.java:61-64 | Write-through: after a boolean setter, reading the key from the store yields the value just set, and every field still mirrors the store. |
| AppSettings.SetTextKeepsCoherent | app/src/main/java/com/zfdang/zsmth_android/Settings.java:33-36 | Write-through for strings: after the setter the store yields the new string (or holds no entry for null), and every field still mirrors the store. |
| AppSettings.ToggleShowSticky | app/src/main/java/com/zfdang/zsmth_android/Settings.java:130-134 | Negates the sticky-topic flag. It always commits exactly one edit, the new value under "show_sticky_topic". Nothing else changes. |
| AppSettings.ToggleIsUnconditionalSet | app/src/main/java/com/zfdang/zsmth_android/Settings.java:123-134 | Toggling equals calling the sticky setter with the negated value. That value always differs, so toggling always writes. |
| AppSettings.ToggleTwice | app/src/main/java/com/zfdang/zsmth_android/Settings.java:130-134 | Two toggles restore every cached field, record two writes, and keep the cache mirrored. |
| AppSettings.EffectiveSignature | app/src/main/java/com/zfdang/zsmth_android/Settings.java:102-108 | getSignature never returns an empty string. It returns the stored signature or "Android". |
| AppSettings.SignatureAfterSet | app/src/main/java/com/zfdang/zsmth_android/Settings.java:102-115 | After setSignature(v), getSignature returns v when v is non-null and non-empty, and "Android" otherwise. |
| AppSettings.IsFirstRun | app/src/main/java/com/zfdang/zsmth_android/Settings.java:182-200 | Let the current version be the version code, or 0 when the package lookup failed. The result is true iff the current version differs from the last launched one. In that case the current version is recorded and written under LAST_LAUNCH_VERSION. When it is false, nothing changes. |
| AppSettings.FirstRunOnlyOnce | app/src/main/java/com/zfdang/zsmth_android/Settings.java:192-199 | Two calls with the same version answer false the second time and change nothing. |
| AppSettings.IsFirstRunKeepsCoherent | app/src/main/java/com/zfdang/zsmth_android/Settings.java:194-198 | Recording a new version keeps every field mirrored in the store. |
| AppSettings.FirstUnreadable | app/src/main/java/com/zfdang/zsmth_android/Settings.java:302-334 | Finds the first key, in reading order, whose platform getter would throw: all keys before it are readable and it is not; no result means every key is readable. |
| AppSettings.InitSettings | app/src/main/java/com/zfdang/zsmth_android/Settings.java:297-335 | Loading succeeds iff every key read is absent or holds a value of its kind. Otherwise it throws ClassCastException naming the first such key in reading order. Every loaded string is non-null (for a non-null marketing name), and on success the store is the one InitStore describes. |
| AppSettings.InitStore | app/src/main/java/com/zfdang/zsmth_android/Settings.java:302-334 | The store left behind whether loading returns or throws: unchanged, or the marketing name committed under "device_signature". The commit happens exactly when the reads up to and including the signature's return, the stored signature is empty and the marketing name is not. |
| AppSettings.SignatureWriteSurvivesThrow | app/src/main/java/com/zfdang/zsmth_android/Settings.java:309-317 | With only a number stored under "forward_target" and a non-empty marketing name, loading throws ClassCastException at the target read, after the signature write has already been committed. |
| AppSettings.InitSucceedsIffWellTyped | app/src/main/java/com/zfdang/zsmth_android/Settings.java:302-334 | Loading succeeds exactly when the store holds no key of the cache with a value of the wrong kind. |
| AppSettings.LoadOrderComplete | app/src/main/java/com/zfdang/zsmth_android/Settings.java:302-334 | Loading reads every one of the seventeen keys. |
| AppSettings.InitDefaults | app/src/main/java/com/zfdang/zsmth_android/Settings.java:302-334 | From an empty store, loading gives: true for auto-login, load-original, night mode, the four notification flags, hot-topic entry and nav bar; false for sticky, last-login-success and online; "" for username, password and target; version 0. The signature is the marketing name, written to the store iff it is non-empty. |
| AppSettings.InitSignature | app/src/main/java/com/zfdang/zsmth_android/Settings.java:310-315 | An empty or absent stored signature is replaced through the signature setter by the marketing name. That writes one edit iff the name is non-empty. Otherwise the stored signature is kept and the store is untouched. |
| AppSettings.LoadAfterFallback | app/src/main/java/com/zfdang/zsmth_android/Settings.java:310-334 | The signature fallback touches only the signature key, so the reads after it see what they would have seen before it. |
| AppSettings.InitCoherent | app/src/main/java/com/zfdang/zsmth_android/Settings.java:302-334 | Right after loading, every field mirrors the store. |
| AppSettings.InitReloads | app/src/main/java/com/zfdang/zsmth_android/Settings.java:297-335 | Round trip: a mirrored cache with non-null strings and a non-empty signature is exactly what loading its own store gives back, without any write. |
| Preferences.Commit | app/src/main/java/com/zfdang/zsmth_android/Settings.java:35-36 | put followed by commit: the key then holds the value (null removes it), every other key is unchanged, and exactly one edit is logged. |
| Lists.RemoveFirst | multi-image-selector/src/main/java/me/nereo/multi_image_selector/adapter/ImageGridAdapter.java:91-92 | List.remove(Object) removes the first occurrence only. Its contents shrink by exactly one copy of the element, and the list is unchanged when the element is absent. |
| ImageGrid.NewAdapter | multi-image-selector/src/main/java/me/nereo/multi_image_selector/adapter/ImageGridAdapter.java:44-55 | A new adapter has no images and no selection, shows the selection indicator, and uses the given camera flag. |
| ImageGrid.ShowSelectIndicator | multi-image-selector/src/main/java/me/nereo/multi_image_selector/adapter/ImageGridAdapter.java:71-73 | Sets the indicator flag and nothing else. |
| ImageGrid.SetShowCamera | multi-image-selector/src/main/java/me/nereo/multi_image_selector/adapter/ImageGridAdapter.java:75-80 | Sets the camera flag and nothing else. |
| ImageGrid.Select | multi-image-selector/src/main/java/me/nereo/multi_image_selector/adapter/ImageGridAdapter.java:90-97 | Appends an unselected image at the end. For a selected one it removes the first copy and keeps the others in their order. The images and flags are never changed. |
| ImageGrid.SelectTwiceAbsent | multi-image-selector/src/main/java/me/nereo/multi_image_selector/adapter/ImageGridAdapter.java:90-95 | Selecting an unselected image twice gives the adapter back unchanged. |
| ImageGrid.SelectTwicePresent | multi-image-selector/src/main/java/me/nereo/multi_image_selector/adapter/ImageGridAdapter.java:90-95 | With no duplicates, selecting a selected image twice restores the selected multiset but moves the image to the end. |
| ImageGrid.SelectTwiceReorders | multi-image-selector/src/main/java/me/nereo/multi_image_selector/adapter/ImageGridAdapter.java:90-95 | Concrete case: with [p, q] selected, selecting p twice leaves [q, p]. |
| ImageGrid.SelectToggles | multi-image-selector/src/main/java/me/nereo/multi_image_selector/adapter/ImageGridAdapter.java:90-95 | On a duplicate-free selection, select flips membership of the image and keeps the selection duplicate-free. |
| ImageGrid.SelectDuplicateStaysSelected | multi-image-selector/src/main/java/me/nereo/multi_image_selector/adapter/ImageGridAdapter.java:91-92 | For any image selected two or more times, select removes exactly one copy and the image stays selected. |
| ImageGrid.SelectOutsideImages | multi-image-selector/src/main/java/me/nereo/multi_image_selector/adapter/ImageGridAdapter.java:90-95 | select does not consult the images: on an empty grid it still selects the image. |
| ImageGrid.FirstMatch | multi-image-selector/src/main/java/me/nereo/multi_image_selector/adapter/ImageGridAdapter.java:115-124 | Returns the position of the first image whose path equals the given path ignoring case. It returns null iff no image matches. |
| ImageGrid.ImageByPath | multi-image-selector/src/main/java/me/nereo/multi_image_selector/adapter/ImageGridAdapter.java:115-124 | getImageByPath returns null iff no image matches, otherwise the first matching image. |
| ImageGrid.Resolve | multi-image-selector/src/main/java/me/nereo/multi_image_selector/adapter/ImageGridAdapter.java:104-109 | The images added for a list of paths: at most one per path, each one of the grid's images. |
| ImageGrid.ResolveMatchesPaths | multi-image-selector/src/main/java/me/nereo/multi_image_selector/adapter/ImageGridAdapter.java:104-109 | Every added image has a path that equals one of the given paths, ignoring case. |
| ImageGrid.ResolveAllFound | multi-image-selector/src/main/java/me/nereo/multi_image_selector/adapter/ImageGridAdapter.java:104-109 | When every path names an image, exactly one image is added per path, in path order: the first match for that path. |
| ImageGrid.ResolveNoneFound | multi-image-selector/src/main/java/me/nereo/multi_image_selector/adapter/ImageGridAdapter.java:104-109 | When no path names an image, nothing is added. |
| ImageGrid.SetDefaultSelected | multi-image-selector/src/main/java/me/nereo/multi_image_selector/adapter/ImageGridAdapter.java:103-113 | Appends the resolved images after the current selection and never removes anything. It does not check for duplicates. Images and flags are unchanged. |
| ImageGrid.SetData | multi-image-selector/src/main/java/me/nereo/multi_image_selector/adapter/ImageGridAdapter.java:130-139 | Always empties the selection. The images become the argument, or the empty list when it is null or empty. |
| ImageGrid.SetDataClearsSelection | multi-image-selector/src/main/java/me/nereo/multi_image_selector/adapter/ImageGridAdapter.java:130-139 | After setData no cell shows as selected. |
| ImageGrid.Count | multi-image-selector/src/main/java/me/nereo/multi_image_selector/adapter/ImageGridAdapter.java:155-157 | The image count, plus one when the camera cell is shown. |
| ImageGrid.Item | multi-image-selector/src/main/java/me/nereo/multi_image_selector/adapter/ImageGridAdapter.java:160-169 | Returns a result exactly for positions 0 .. getCount()-1 and throws IndexOutOfBounds elsewhere. It returns null exactly at position 0 with the camera shown, and otherwise the image at that position, shifted back by one when the camera is shown. |
| ImageGrid.CellsEnumerateImages | multi-image-selector/src/main/java/me/nereo/multi_image_selector/adapter/ImageGridAdapter.java:155-169 | Positions 0 .. getCount()-1 hold the camera cell first (when shown), then every image exactly once, in order. |
| ImageGrid.CameraShiftsItems | multi-image-selector/src/main/java/me/nereo/multi_image_selector/adapter/ImageGridAdapter.java:160-169 | Showing the camera moves every image one position later. |
| ImageGrid.ItemViewType | multi-image-selector/src/main/java/me/nereo/multi_image_selector/adapter/ImageGridAdapter.java:147-152 | The view type is always camera or normal. It is camera exactly at position 0 with the camera shown. |
| ImageGrid.ViewTypeMatchesItem | multi-image-selector/src/main/java/me/nereo/multi_image_selector/adapter/ImageGridAdapter.java:147-169 | Within the grid, the camera view type marks exactly the cell whose item is null. |
| ImageGrid.Bind | multi-image-selector/src/main/java/me/nereo/multi_image_selector/adapter/ImageGridAdapter.java:213-247 | A null item binds nothing. With the indicator on, the check mark and mask show "selected" iff the image is in the selection. With it off, the indicator is hidden and the mask is left alone. The thumbnail is reloaded iff the cached URI is null or differs from the new one, and afterwards the cached URI is the new one. |
| ImageGrid.BindAgainNoReload | multi-image-selector/src/main/java/me/nereo/multi_image_selector/adapter/ImageGridAdapter.java:240-247 | Binding a view again to the URI it was just bound to does not reload the thumbnail. |
| ImageGrid.SelectThenBind | multi-image-selector/src/main/java/me/nereo/multi_image_selector/adapter/ImageGridAdapter.java:213-226 | With the indicator on and no duplicates, right after select the image's cell shows as selected iff it was not selected before. |
| CaseFold.EqualsIgnoreCaseIsEquivalence | multi-image-selector/src/main/java/me/nereo/multi_image_selector/adapter/ImageGridAdapter.java:118 | Path matching ignoring case is reflexive, symmetric and transitive. |

## Left out

- File I/O, URI construction and the image pipeline (`showThumb`, multi-image-selector/src/main/java/me/nereo/multi_image_selector/adapter/ImageGridAdapter.java:232-238 and 252-262). The URI a cell would load is an input to `Bind`.
- View inflation, `getView`, `ViewHolder` tag storage, `notifyDataSetChanged` (including the conditions under which `setShowCamera` and `setDefaultSelected` request it), and the grid width from the window manager. These are UI plumbing.
- `getItemId` (returns its argument) and `getViewTypeCount` (the constant 2). Neither makes a decision.
- List aliasing in `setData`: the source keeps the caller's list and may later clear it. Lists here are immutable sequences.
- Image.java is not part of this model. Images compare by structural equality of path, name and time, and `contains`/`remove` use that equality.
- CaseFold.EqualsIgnoreCase: folds ASCII letters only. Full Unicode `equalsIgnoreCase` is not modelled.
- Null path lists, null paths and images with a null path. Paths and lists are non-null here. In the source a null list or a null image path throws NullPointerException. A null path is skipped, because `equalsIgnoreCase(null)` is false (multi-image-selector/src/main/java/me/nereo/multi_image_selector/adapter/ImageGridAdapter.java:118) and the lookup then returns null.
- The preference store's mechanics: commit durability, asynchronous persistence, the store's name and mode. Preference values are limited to the three kinds the cache uses. `putString(key, null)` is modelled as removal of the key, as the platform documents.
- The singleton and the package-manager and device-marketing-name lookups. `IsFirstRun` takes the version code as a parameter (`Null` when the lookup threw). `InitSettings` takes the store and the marketing name as parameters. Logging is omitted.
- AppSettings.InitSettings: the device's marketing name is assumed non-null (it is a `string`). The source does not check it. With a null name, `setSignature` would leave the signature null and remove its key, so "every loaded string is non-null" holds only under this assumption. The thrown ClassCastException carries the offending key, not the platform's message. A `Throw` carries no store; the store after a throw is given separately by `InitStore`. The model first looks for an unreadable key in the source's reading order and only then assembles the record. Reading from the store before or after the signature fallback gives the same values (`LoadAfterFallback`).
- AppSettings.EffectiveSignature: its own contract says only "non-empty, and either the stored signature or Android". The exact choice is stated by `SignatureAfterSet`.
- ImageGrid.Item: the position is an unbounded integer. In the source, `i - 1` for the smallest 32-bit int wraps around. Both versions throw, but here the exception records the unwrapped index.
- Integer width of the version code: it is only compared for equality and stored, so unbounded integers behave like Java's 32-bit ones.
