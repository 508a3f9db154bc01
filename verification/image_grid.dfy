/** The image picker's grid adapter: the list of all images, the list of
    selected images, and an optional leading camera cell. Both lists keep
    `java.util.List` semantics: they are ordered, may hold duplicates, and
    `remove` drops only the first equal element. */
module ImageGrid {
  import opened Lang
  import opened Lists
  import opened CaseFold

  /** A picture on the device. Equality is structural. */
  datatype Image = Image(path: string, name: string, time: int)

  /** The URI a thumbnail is loaded from; how it is built from the file is left out. */
  datatype Uri = Uri(text: string)

  /** The two view types `getItemViewType` distinguishes. */
  const TYPE_CAMERA: int := 0
  const TYPE_NORMAL: int := 1

  datatype Adapter = Adapter(
    images: seq<Image>,
    selected: seq<Image>,
    showCamera: bool,
    showIndicator: bool)

  /** A new adapter: no images, nothing selected, the selection indicator shown. */
  function NewAdapter(showCamera: bool): (a: Adapter)
    ensures a.images == [] && a.selected == []
    ensures a.showCamera == showCamera && a.showIndicator
  {
    Adapter([], [], showCamera, true)
  }

  /** `showSelectIndicator(b)`. */
  function ShowSelectIndicator(a: Adapter, b: bool): (r: Adapter)
    ensures r.showIndicator == b
    ensures r.images == a.images && r.selected == a.selected && r.showCamera == a.showCamera
  {
    a.(showIndicator := b)
  }

  /** `setShowCamera(b)`; the redraw it requests when the flag changes is left out. */
  function SetShowCamera(a: Adapter, b: bool): (r: Adapter)
    ensures r.showCamera == b
    ensures r.images == a.images && r.selected == a.selected && r.showIndicator == a.showIndicator
  {
    if a.showCamera == b then a else a.(showCamera := b)
  }

  /** `select(image)`: deselects the first occurrence of an image that is
      selected, and appends one that is not. The image need not be one of
      the adapter's images. */
  function Select(a: Adapter, x: Image): (r: Adapter)
    ensures r.images == a.images && r.showCamera == a.showCamera && r.showIndicator == a.showIndicator
    ensures x !in a.selected ==> r.selected == a.selected + [x]
    ensures x in a.selected ==>
      r.selected == a.selected[..IndexOf(a.selected, x)] + a.selected[IndexOf(a.selected, x) + 1..]
    ensures x in a.selected ==> |r.selected| == |a.selected| - 1
    ensures multiset(r.selected)[x] == if x in a.selected then multiset(a.selected)[x] - 1 else 1
    ensures forall y :: y != x ==> multiset(r.selected)[y] == multiset(a.selected)[y]
  {
    if x in a.selected then a.(selected := RemoveFirst(a.selected, x))
    else a.(selected := a.selected + [x])
  }

  /** `equalsIgnoreCase` on the image's path. */
  predicate PathMatches(img: Image, path: string) {
    EqualsIgnoreCase(img.path, path)
  }

  /** `images[i]` is the first image whose path matches `path`. */
  predicate FirstMatchAt(images: seq<Image>, path: string, i: int) {
    && 0 <= i < |images|
    && PathMatches(images[i], path)
    && forall j :: 0 <= j < i ==> !PathMatches(images[j], path)
  }

  /** The position of the first image whose path matches `path`, if any. */
  function FirstMatch(images: seq<Image>, path: string): (r: Nullable<nat>)
    ensures r.NonNull? ==> FirstMatchAt(images, path, r.value)
    ensures r.Null? ==> forall i :: 0 <= i < |images| ==> !PathMatches(images[i], path)
  {
    if |images| == 0 then Null
    else if PathMatches(images[0], path) then NonNull(0)
    else
      match FirstMatch(images[1..], path)
      case Null => Null
      case NonNull(i) =>
        assert forall j :: 1 <= j < i + 1 ==> images[j] == images[1..][j - 1];
        NonNull(i + 1)
  }

  /** `getImageByPath`: the first image whose path matches ignoring case, or null. */
  function ImageByPath(images: seq<Image>, path: string): (r: Nullable<Image>)
    ensures r.Null? <==> forall i :: 0 <= i < |images| ==> !PathMatches(images[i], path)
    ensures r.NonNull? ==> r.value in images && PathMatches(r.value, path)
    ensures r.NonNull? ==> forall i :: FirstMatchAt(images, path, i) ==> images[i] == r.value
  {
    match FirstMatch(images, path)
    case Null => Null
    case NonNull(i) => NonNull(images[i])
  }

  /** The images `setDefaultSelected` appends for `paths`, in order: for
      each path the image ImageByPath finds, if any. */
  function Resolve(images: seq<Image>, paths: seq<string>): (r: seq<Image>)
    ensures |r| <= |paths|
    ensures forall i :: 0 <= i < |r| ==> r[i] in images
  {
    if |paths| == 0 then []
    else
      var prefix := Resolve(images, paths[..|paths| - 1]);
      match ImageByPath(images, paths[|paths| - 1])
      case Null => prefix
      case NonNull(img) => prefix + [img]
  }

  /** Some path in `paths` names `img`, ignoring case. */
  predicate NamedBy(img: Image, paths: seq<string>) {
    exists j :: 0 <= j < |paths| && PathMatches(img, paths[j])
  }

  /** Every image Resolve appends is named by one of the paths. */
  lemma {:induction false} ResolveMatchesPaths(images: seq<Image>, paths: seq<string>)
    ensures forall i :: 0 <= i < |Resolve(images, paths)| ==> NamedBy(Resolve(images, paths)[i], paths)
  {
    if |paths| > 0 {
      var n := |paths| - 1;
      var init := paths[..n];
      ResolveMatchesPaths(images, init);
      var prefix := Resolve(images, init);
      var r := Resolve(images, paths);
      forall i | 0 <= i < |r|
        ensures NamedBy(r[i], paths)
      {
        if i < |prefix| {
          assert r[i] == prefix[i];
          var j :| 0 <= j < |init| && PathMatches(prefix[i], init[j]);
          assert paths[j] == init[j];
        } else {
          assert PathMatches(r[i], paths[n]);
        }
      }
    }
  }

  /** `setDefaultSelected(resultList)`: appends, in order, the image each
      path names, skipping paths no image matches; nothing is removed and
      nothing is checked for duplicates. */
  method SetDefaultSelected(a: Adapter, paths: seq<string>) returns (r: Adapter)
    ensures r.images == a.images && r.showCamera == a.showCamera && r.showIndicator == a.showIndicator
    ensures r.selected == a.selected + Resolve(a.images, paths)
    ensures |r.selected| >= |a.selected| && r.selected[..|a.selected|] == a.selected
  {
    var selected := a.selected;
    var i := 0;
    while i < |paths|
      invariant 0 <= i <= |paths|
      invariant selected == a.selected + Resolve(a.images, paths[..i])
    {
      assert paths[..i + 1][..i] == paths[..i];
      match ImageByPath(a.images, paths[i]) {
        case NonNull(img) =>
          selected := selected + [img];
        case Null =>
      }
      i := i + 1;
    }
    assert paths[..i] == paths;
    r := a.(selected := selected);
  }

  /** `setData(images)`: clears the selection and shows the given images, or
      none when the argument is null. */
  function SetData(a: Adapter, images: Nullable<seq<Image>>): (r: Adapter)
    ensures r.selected == []
    ensures r.images == if images.Null? then [] else images.value
    ensures r.showCamera == a.showCamera && r.showIndicator == a.showIndicator
  {
    if images.NonNull? && |images.value| > 0 then a.(selected := [], images := images.value)
    else a.(selected := [], images := [])
  }

  /** `getCount`: one cell per image, plus the camera cell when shown. */
  function Count(a: Adapter): (n: nat)
    ensures n == |a.images| + (if a.showCamera then 1 else 0)
  {
    if a.showCamera then |a.images| + 1 else |a.images|
  }

  /** `getItem(i)`: `null` for the camera cell, otherwise the image shown
      at `i`; a position outside the grid makes `List.get` throw. */
  function Item(a: Adapter, i: int): (r: Result<Nullable<Image>>)
    ensures r.Ok? <==> 0 <= i < Count(a)
    ensures r == Ok(Null) <==> a.showCamera && i == 0
    ensures r.Ok? && r.value.NonNull? ==> r.value.value == a.images[if a.showCamera then i - 1 else i]
    ensures r.Throw? ==> r.exception.IndexOutOfBounds?
  {
    if a.showCamera then
      if i == 0 then Ok(Null)
      else if 0 <= i - 1 < |a.images| then Ok(NonNull(a.images[i - 1]))
      else Throw(IndexOutOfBounds(i - 1))
    else if 0 <= i < |a.images| then Ok(NonNull(a.images[i]))
    else Throw(IndexOutOfBounds(i))
  }

  /** `getItemViewType(position)`. */
  function ItemViewType(a: Adapter, position: int): (t: int)
    ensures t == TYPE_CAMERA || t == TYPE_NORMAL
    ensures t == TYPE_CAMERA <==> a.showCamera && position == 0
  {
    if a.showCamera then (if position == 0 then TYPE_CAMERA else TYPE_NORMAL) else TYPE_NORMAL
  }

  /** The selection overlay `bindData` sets: the check mark, and the mask over the thumbnail. */
  datatype Indicator = IndicatorHidden | IndicatorSelected | IndicatorUnselected
  datatype Mask = MaskVisible | MaskGone | MaskUntouched

  /** What `bindData` decides for one cell. */
  datatype Binding = Binding(indicator: Indicator, mask: Mask, reload: bool, tag: Uri)

  /** `bindData(data)`: nothing for a null item; otherwise the overlay for
      the selection state, and a reload of the thumbnail unless the view's
      cached URI already equals `newUri`, which becomes the cached URI. */
  function Bind(a: Adapter, data: Nullable<Image>, cached: Nullable<Uri>, newUri: Uri): (r: Nullable<Binding>)
    ensures r.Null? <==> data.Null?
    ensures r.NonNull? ==> (r.value.indicator == IndicatorHidden <==> !a.showIndicator)
    ensures r.NonNull? ==> (r.value.indicator == IndicatorSelected <==> a.showIndicator && data.value in a.selected)
    ensures r.NonNull? ==> (r.value.mask == MaskVisible <==> r.value.indicator == IndicatorSelected)
    ensures r.NonNull? ==> (r.value.mask == MaskUntouched <==> !a.showIndicator)
    ensures r.NonNull? ==> (r.value.reload <==> cached != NonNull(newUri))
    ensures r.NonNull? ==> r.value.tag == newUri
  {
    match data
    case Null => Null
    case NonNull(img) =>
      var indicator :=
        if !a.showIndicator then IndicatorHidden
        else if img in a.selected then IndicatorSelected
        else IndicatorUnselected;
      var mask :=
        if !a.showIndicator then MaskUntouched
        else if img in a.selected then MaskVisible
        else MaskGone;
      var reload := cached.Null? || cached.value != newUri;
      NonNull(Binding(indicator, mask, reload, if reload then newUri else cached.value))
  }

  /** Selecting an unselected image twice gives the adapter back unchanged. */
  lemma SelectTwiceAbsent(a: Adapter, x: Image)
    requires x !in a.selected
    ensures Select(Select(a, x), x) == a
  {
    RemoveFirstOfAppended(a.selected, x);
  }

  /** Selecting a selected image twice, with no duplicates, keeps the same
      images selected but moves `x` to the end: the toggle is an involution
      on the selected set, not on the selected sequence. */
  lemma SelectTwicePresent(a: Adapter, x: Image)
    requires NoDup(a.selected) && x in a.selected
    ensures Select(Select(a, x), x).selected == RemoveFirst(a.selected, x) + [x]
    ensures multiset(Select(Select(a, x), x).selected) == multiset(a.selected)
  {
    RemoveFirstKeepsNoDup(a.selected, x);
  }

  /** The reordering is real: with [p, q] selected, selecting p twice leaves [q, p]. */
  lemma SelectTwiceReorders(p: Image, q: Image)
    requires p != q
    ensures var a := Adapter([p, q], [p, q], false, true);
      Select(Select(a, p), p).selected == [q, p] != a.selected
  {
    var a := Adapter([p, q], [p, q], false, true);
    assert Select(a, p).selected == [q];
  }

  /** On a duplicate-free selection, `select` toggles membership and keeps it duplicate-free. */
  lemma SelectToggles(a: Adapter, x: Image)
    requires NoDup(a.selected)
    ensures x in Select(a, x).selected <==> x !in a.selected
    ensures NoDup(Select(a, x).selected)
  {
    if x in a.selected {
      RemoveFirstKeepsNoDup(a.selected, x);
    } else {
      AppendKeepsNoDup(a.selected, x);
    }
  }

  /** With an image selected more than once, `select` removes one copy only:
      the image stays selected. */
  lemma SelectDuplicateStaysSelected(a: Adapter, x: Image)
    requires multiset(a.selected)[x] >= 2
    ensures x in Select(a, x).selected
    ensures multiset(Select(a, x).selected)[x] == multiset(a.selected)[x] - 1
  {
  }

  /** `select` does not check the image against the adapter's images, so
      the selection need not be a part of them. */
  lemma SelectOutsideImages(x: Image)
    ensures var a := NewAdapter(true);
      Select(a, x).selected == [x] && x !in Select(a, x).images
  {
  }

  /** When every path names an image, one image is appended per path, in
      the order of the paths. */
  lemma {:induction false} ResolveAllFound(images: seq<Image>, paths: seq<string>)
    requires forall j :: 0 <= j < |paths| ==> ImageByPath(images, paths[j]).NonNull?
    ensures |Resolve(images, paths)| == |paths|
    ensures forall j :: 0 <= j < |paths| ==> Resolve(images, paths)[j] == ImageByPath(images, paths[j]).value
  {
    if |paths| > 0 {
      var n := |paths| - 1;
      var init := paths[..n];
      assert forall j :: 0 <= j < n ==> init[j] == paths[j];
      ResolveAllFound(images, init);
      var prefix := Resolve(images, init);
      var img := ImageByPath(images, paths[n]).value;
      assert Resolve(images, paths) == prefix + [img];
      forall j | 0 <= j < |paths|
        ensures Resolve(images, paths)[j] == ImageByPath(images, paths[j]).value
      {
        if j < n {
          assert Resolve(images, paths)[j] == prefix[j];
        }
      }
    }
  }

  /** When no path names an image, nothing is appended. */
  lemma {:induction false} ResolveNoneFound(images: seq<Image>, paths: seq<string>)
    requires forall j :: 0 <= j < |paths| ==> ImageByPath(images, paths[j]).Null?
    ensures Resolve(images, paths) == []
  {
    if |paths| > 0 {
      var init := paths[..|paths| - 1];
      assert forall j :: 0 <= j < |init| ==> init[j] == paths[j];
      ResolveNoneFound(images, init);
    }
  }

  /** The cells of the grid, position by position. */
  function Cells(a: Adapter): seq<Nullable<Image>> {
    seq(Count(a), i requires 0 <= i < Count(a) => Item(a, i).value)
  }

  /** The positions `0 .. getCount() - 1` hold the camera cell first, when
      shown, and then every image exactly once, in order. */
  lemma CellsEnumerateImages(a: Adapter)
    ensures Cells(a) == (if a.showCamera then [Null] else []) + seq(|a.images|, j requires 0 <= j < |a.images| => NonNull(a.images[j]))
  {
  }

  /** The view type marks exactly the cell whose item is the null camera item. */
  lemma ViewTypeMatchesItem(a: Adapter, position: int)
    requires 0 <= position < Count(a)
    ensures ItemViewType(a, position) == TYPE_CAMERA <==> Item(a, position) == Ok(Null)
  {
  }

  /** Showing the camera shifts every image one position later. */
  lemma CameraShiftsItems(a: Adapter, position: int)
    requires position >= 0
    ensures Item(SetShowCamera(a, true), position + 1) == Item(SetShowCamera(a, false), position)
  {
  }

  /** Binding a view again to the URI it was just bound to does not reload the thumbnail. */
  lemma BindAgainNoReload(a: Adapter, data: Image, cached: Nullable<Uri>, newUri: Uri)
    ensures var first := Bind(a, NonNull(data), cached, newUri);
      !Bind(a, NonNull(data), NonNull(first.value.tag), newUri).value.reload
  {
  }

  /** With the indicator shown, a cell shows its image as selected right
      after `select` exactly when it was not selected before. */
  lemma SelectThenBind(a: Adapter, x: Image, cached: Nullable<Uri>, newUri: Uri)
    requires a.showIndicator && NoDup(a.selected)
    ensures Bind(Select(a, x), NonNull(x), cached, newUri).value.indicator == IndicatorSelected <==> x !in a.selected
  {
    SelectToggles(a, x);
  }

  /** After `setData` no cell shows as selected. */
  lemma SetDataClearsSelection(a: Adapter, images: Nullable<seq<Image>>, x: Image, cached: Nullable<Uri>, newUri: Uri)
    ensures Bind(SetData(a, images), NonNull(x), cached, newUri).value.indicator != IndicatorSelected
  {
  }
}
