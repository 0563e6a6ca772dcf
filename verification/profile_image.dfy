/**
 * The profile picture (`initProfileImageHandler`, `applyProfileImage`). A
 * "change photo" button opens a file input; choosing an image file reads it
 * as a data URL, which is shown in the page's `<img>` and avatar and written
 * to one local-storage key; every page load shows the stored value again.
 * The data URL is an opaque string and the asynchronous read is one
 * completion event carrying it.
 */
module ProfileImage {
  import opened Optional

  /** The one local-storage key the picture lives under. */
  const StoreKey: string := "profileImageDataUrl"

  /** A `.profile-photo-controls` container, by identity. */
  type ContainerId = nat

  /** A `.profile-image-input` element, in document order: the controls
      containers it lies inside. */
  datatype FileInput = FileInput(containers: set<ContainerId>)

  /** `scope.querySelector('.profile-image-input')` may return `input`: inside
      the container, or anywhere when the scope is the whole document. */
  predicate InScope(input: FileInput, scope: Option<ContainerId>) {
    scope.None? || scope.value in input.containers
  }

  /** `k` is the first input in document order inside the scope. */
  ghost predicate IsFirstInScope(inputs: seq<FileInput>, scope: Option<ContainerId>, k: int) {
    0 <= k < |inputs| && InScope(inputs[k], scope)
    && forall j :: 0 <= j < k ==> !InScope(inputs[j], scope)
  }

  /** `querySelector`: the first input inside the scope, if any. */
  function FirstInScope(inputs: seq<FileInput>, scope: Option<ContainerId>): (r: Option<nat>)
    ensures r.Some? ==> IsFirstInScope(inputs, scope, r.value)
    ensures r.None? ==> forall j :: 0 <= j < |inputs| ==> !InScope(inputs[j], scope)
  {
    if |inputs| == 0 then None
    else if InScope(inputs[0], scope) then Some(0)
    else match FirstInScope(inputs[1..], scope)
      case None => None
      case Some(k) => Some(k + 1)
  }

  /** The change-photo button's choice of input, given the container
      `btn.closest(...)` found (`None` when there is none): the first input in
      that container, else the first input of the document, else none. */
  function PickFileInput(inputs: seq<FileInput>, buttonContainer: Option<ContainerId>): (r: Option<nat>)
    ensures r.Some? ==> r.value < |inputs|
    ensures buttonContainer.Some? && (exists j :: 0 <= j < |inputs| && InScope(inputs[j], buttonContainer)) ==>
      r.Some? && IsFirstInScope(inputs, buttonContainer, r.value)
    ensures buttonContainer.None? || (forall j :: 0 <= j < |inputs| ==> !InScope(inputs[j], buttonContainer)) ==>
      r == if |inputs| == 0 then None else Some(0)
  {
    var scoped := if buttonContainer.Some? then FirstInScope(inputs, buttonContainer) else None;
    if scoped.Some? then scoped else FirstInScope(inputs, None)
  }

  /** A selected file, by its declared media type. */
  datatype FileInfo = FileInfo(mimeType: string)

  /** What the change handler does with the selection. */
  datatype ChangeOutcome =
    | NoFile              // nothing selected: return silently
    | NotAnImage          // "Please select an image file."
    | Read(file: FileInfo)  // the file is read as a data URL

  /** `file.type.startsWith('image/')`. */
  predicate IsImageType(mimeType: string) {
    "image/" <= mimeType
  }

  /** The change handler's guard: only the first selected file matters. */
  function OnFileChange(files: seq<FileInfo>): (r: ChangeOutcome)
    ensures r == NoFile <==> |files| == 0
    ensures r == NotAnImage <==> |files| > 0 && !IsImageType(files[0].mimeType)
    ensures r.Read? <==> |files| > 0 && IsImageType(files[0].mimeType)
    ensures r.Read? ==> r.file == files[0]
  {
    if |files| == 0 then NoFile
    else if !IsImageType(files[0].mimeType) then NotAnImage
    else Read(files[0])
  }

  /** The avatar's `style.backgroundImage` for a data URL. */
  function AvatarBackground(dataUrl: string): string {
    "url('" + dataUrl + "')"
  }

  /** Different pictures give different avatar backgrounds. */
  lemma AvatarBackgroundInjective(a: string, b: string)
    requires AvatarBackground(a) == AvatarBackground(b)
    ensures a == b
  {
    var bg := AvatarBackground(a);
    assert bg[5..|bg| - 2] == a;
    assert AvatarBackground(b)[5..|bg| - 2] == b;
  }

  /** The picture-showing elements of the current page: the `.profile-img`
      source and the `.profile-avatar` background, each `None` when the page
      has no such element. */
  datatype Display = Display(img: Option<string>, avatar: Option<string>)

  /** `applyProfileImage`: every present element shows the data URL; absent
      ones stay absent. */
  function Applied(d: Display, dataUrl: string): (r: Display)
    ensures r.img.Some? == d.img.Some? && r.avatar.Some? == d.avatar.Some?
    ensures r.img.Some? ==> r.img.value == dataUrl
    ensures r.avatar.Some? ==> r.avatar.value == AvatarBackground(dataUrl)
  {
    Display(
      if d.img.Some? then Some(dataUrl) else None,
      if d.avatar.Some? then Some(AvatarBackground(dataUrl)) else None)
  }

  /** Applying a picture overwrites whatever was shown: the last one wins. */
  lemma AppliedLastWins(d: Display, first: string, second: string)
    ensures Applied(Applied(d, first), second) == Applied(d, second)
  {
  }

  /** On a page with a picture element, what is shown determines the data URL. */
  lemma AppliedDeterminesDataUrl(d: Display, a: string, b: string)
    requires d.img.Some? || d.avatar.Some?
    requires Applied(d, a) == Applied(d, b)
    ensures a == b
  {
    if d.avatar.Some? && d.img.None? {
      AvatarBackgroundInjective(a, b);
    }
  }

  /** The stored value is applied on load when it is present and truthy
      (a non-empty string). */
  function Restored(d: Display, storage: map<string, string>): Display
  {
    if StoreKey in storage && storage[StoreKey] != "" then Applied(d, storage[StoreKey]) else d
  }

  /** Select, store, reload: the reloaded page shows what the selection showed.
      Data URLs are never empty, which the truthiness test on load needs. */
  lemma StoreThenRestore(d: Display, storage: map<string, string>, dataUrl: string)
    requires dataUrl != ""
    ensures Restored(d, storage[StoreKey := dataUrl]) == Applied(d, dataUrl)
  {
  }

  /** The picture state: the current page's elements and local storage. */
  class ProfileImageManager {
    var display: Display
    var storage: map<string, string>

    constructor (display: Display, storage: map<string, string>)
      ensures this.display == display && this.storage == storage
    {
      this.display, this.storage := display, storage;
    }

    /** `applyProfileImage(dataUrl)`. */
    method ApplyProfileImage(dataUrl: string)
      modifies this
      ensures display == Applied(old(display), dataUrl)
      ensures storage == old(storage)
    {
      var d := display;
      if d.img.Some? {
        d := d.(img := Some(dataUrl));
      }
      if d.avatar.Some? {
        d := d.(avatar := Some(AvatarBackground(dataUrl)));
      }
      display := d;
    }

    /** The read's completion: show the data URL, then overwrite the stored
        value. A failed store write (`storeOk` false) is swallowed: storage
        keeps its old value while the page shows the new picture. */
    method OnReadComplete(dataUrl: string, storeOk: bool)
      modifies this
      ensures display == Applied(old(display), dataUrl)
      ensures storage == if storeOk then old(storage)[StoreKey := dataUrl] else old(storage)
    {
      ApplyProfileImage(dataUrl);
      if storeOk {
        storage := storage[StoreKey := dataUrl];
      }
    }

    /** A file input's change event followed, for an accepted file, by the
        completion of its read with `dataUrl`. A missing or non-image file
        changes neither the page nor storage. */
    method OnInputChange(files: seq<FileInfo>, dataUrl: string, storeOk: bool) returns (outcome: ChangeOutcome)
      modifies this
      ensures outcome == OnFileChange(files)
      ensures !outcome.Read? ==> display == old(display) && storage == old(storage)
      ensures outcome.Read? ==> display == Applied(old(display), dataUrl)
      ensures outcome.Read? ==>
        storage == if storeOk then old(storage)[StoreKey := dataUrl] else old(storage)
    {
      outcome := OnFileChange(files);
      if outcome.Read? {
        OnReadComplete(dataUrl, storeOk);
      }
    }

    /** Page load: show the stored picture if there is a truthy one. */
    method RestoreOnLoad()
      modifies this
      ensures display == Restored(old(display), old(storage))
      ensures storage == old(storage)
    {
      if StoreKey in storage {
        var stored := storage[StoreKey];
        if stored != "" {
          ApplyProfileImage(stored);
        }
      }
    }
  }

  /** The round trip across a reload: an image selected on one page load is
      shown again, identically, by the next load of a page with the same
      default markup `d` when its store write succeeded; when the write failed
      the next load shows what storage held before. */
  method SelectThenReload(d: Display, storage: map<string, string>, files: seq<FileInfo>, dataUrl: string, storeOk: bool)
    returns (selected: Display, reloaded: Display)
    requires dataUrl != "" && OnFileChange(files).Read?
    ensures selected == Applied(d, dataUrl)
    ensures storeOk ==> reloaded == selected
    ensures !storeOk ==> reloaded == Restored(d, storage)
  {
    var page := new ProfileImageManager(d, storage);
    var outcome := page.OnInputChange(files, dataUrl, storeOk);
    selected := page.display;
    var next := new ProfileImageManager(d, page.storage);
    next.RestoreOnLoad();
    reloaded := next.display;
    StoreThenRestore(d, storage, dataUrl);
  }
}
