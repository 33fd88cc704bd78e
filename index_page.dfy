/**
 * The list logic of the file browser page (src/pages/Index.tsx): storage sum,
 * search and starred filter, star toggle, delete, upload completion, upload
 * dismissal, download gating, the type category and the generated keys.
 * The page keeps its lists in React state and replaces them with new arrays,
 * so each handler is a function from the old list to the new one.
 */
module IndexPage {
  import opened Wrappers
  import opened Text
  import opened FileCard
  import opened SecuritySettingsDialog
  import Crypto

  // ---------------------------------------------------------------- filtering

  /** `s.filter(keep)`: the elements that pass, in their original order. */
  function Filter<T>(s: seq<T>, keep: T -> bool): (r: seq<T>)
    ensures |r| <= |s|
    decreases |s|
  {
    if s == [] then [] else (if keep(s[0]) then [s[0]] else []) + Filter(s[1..], keep)
  }

  /** An element is kept exactly when it is in the input and passes. */
  lemma {:induction false} FilterMembership<T>(s: seq<T>, keep: T -> bool, x: T)
    ensures x in Filter(s, keep) <==> x in s && keep(x)
    decreases |s|
  {
    if s != [] {
      FilterMembership(s[1..], keep, x);
      assert s == [s[0]] + s[1..];
    }
  }

  /** Filtering commutes with concatenation, so the kept elements keep their relative order. */
  lemma {:induction false} FilterAppend<T>(a: seq<T>, b: seq<T>, keep: T -> bool)
    ensures Filter(a + b, keep) == Filter(a, keep) + Filter(b, keep)
    decreases |a|
  {
    if a == [] {
      assert a + b == b;
    } else {
      FilterAppend(a[1..], b, keep);
      assert (a + b)[0] == a[0];
      assert (a + b)[1..] == a[1..] + b;
      var head := if keep(a[0]) then [a[0]] else [];
      assert Filter(a + b, keep) == head + Filter(a[1..] + b, keep);
      assert Filter(a, keep) == head + Filter(a[1..], keep);
      assert head + (Filter(a[1..], keep) + Filter(b, keep)) == (head + Filter(a[1..], keep)) + Filter(b, keep);
    }
  }

  /** When every element passes, the filter returns the input unchanged. */
  lemma {:induction false} FilterKeepsAll<T>(s: seq<T>, keep: T -> bool)
    requires forall i :: 0 <= i < |s| ==> keep(s[i])
    ensures Filter(s, keep) == s
    decreases |s|
  {
    if s != [] {
      FilterKeepsAll(s[1..], keep);
    }
  }

  /** Filtering twice by the same test is filtering once. */
  lemma {:induction false} FilterIdempotent<T>(s: seq<T>, keep: T -> bool)
    ensures Filter(Filter(s, keep), keep) == Filter(s, keep)
    decreases |s|
  {
    var r := Filter(s, keep);
    forall i | 0 <= i < |r| ensures keep(r[i]) {
      FilterMembership(s, keep, r[i]);
    }
    FilterKeepsAll(r, keep);
  }

  // ---------------------------------------------------------------- storage

  /** `files.reduce((acc, file) => acc + file.size, 0)`, folded from the left. */
  function StorageUsed(files: seq<FileItem>): nat {
    if files == [] then 0 else StorageUsed(files[..|files| - 1]) + files[|files| - 1].size
  }

  /** The storage sum of a concatenation is the sum of the parts. */
  lemma {:induction false} StorageUsedAppend(a: seq<FileItem>, b: seq<FileItem>)
    ensures StorageUsed(a + b) == StorageUsed(a) + StorageUsed(b)
    decreases |b|
  {
    if b == [] {
      assert a + b == a;
    } else {
      var b' := b[..|b| - 1];
      assert (a + b)[..|a + b| - 1] == a + b';
      StorageUsedAppend(a, b');
    }
  }

  /** Every file's size is counted: the sum is at least each size. */
  lemma StorageUsedCountsEach(files: seq<FileItem>, i: nat)
    requires i < |files|
    ensures files[i].size <= StorageUsed(files)
  {
    assert files == files[..i] + [files[i]] + files[i + 1..];
    StorageUsedAppend(files[..i] + [files[i]], files[i + 1..]);
    StorageUsedAppend(files[..i], [files[i]]);
    assert StorageUsed([files[i]]) == StorageUsed([]) + files[i].size;
  }

  /** Removing files never increases the storage sum. */
  lemma {:induction false} StorageUsedFilter(files: seq<FileItem>, keep: FileItem -> bool)
    ensures StorageUsed(Filter(files, keep)) <= StorageUsed(files)
    decreases |files|
  {
    if files != [] {
      StorageUsedFilter(files[1..], keep);
      assert files == [files[0]] + files[1..];
      StorageUsedAppend([files[0]], files[1..]);
      var head := if keep(files[0]) then [files[0]] else [];
      StorageUsedAppend(head, Filter(files[1..], keep));
      assert StorageUsed([files[0]]) == StorageUsed([]) + files[0].size;
    }
  }

  // ---------------------------------------------------------------- search

  /** The name test of `filteredFiles`: the lower-cased name contains the lower-cased query. */
  predicate MatchesSearch(file: FileItem, query: string) {
    Includes(ToLower(file.name), ToLower(query))
  }

  /** The section test of `filteredFiles`: in the "starred" section only starred files pass. */
  predicate MatchesSection(file: FileItem, section: string) {
    if section == "starred" then file.starred else true
  }

  /** `filteredFiles`: the current files that pass both tests. */
  function FilteredFiles(files: seq<FileItem>, query: string, section: string): seq<FileItem> {
    Filter(files, (f: FileItem) => MatchesSearch(f, query) && MatchesSection(f, section))
  }

  /** A file is listed exactly when it is current, its name matches the query ignoring case,
      and, in the "starred" section, it is starred; listed files keep their order. */
  lemma FilteredFilesSpec(files: seq<FileItem>, a: seq<FileItem>, b: seq<FileItem>, query: string, section: string, f: FileItem)
    ensures f in FilteredFiles(files, query, section)
      <==> f in files && Includes(ToLower(f.name), ToLower(query)) && (section == "starred" ==> f.starred)
    ensures FilteredFiles(a + b, query, section) == FilteredFiles(a, query, section) + FilteredFiles(b, query, section)
  {
    FilterMembership(files, (f: FileItem) => MatchesSearch(f, query) && MatchesSection(f, section), f);
    FilterAppend(a, b, (f: FileItem) => MatchesSearch(f, query) && MatchesSection(f, section));
  }

  /** With an empty query outside the "starred" section every file is listed, in order. */
  lemma EmptyQueryListsAll(files: seq<FileItem>, section: string)
    requires section != "starred"
    ensures FilteredFiles(files, "", section) == files
  {
    forall i | 0 <= i < |files| ensures MatchesSearch(files[i], "") {
      assert OccursAt(ToLower(files[i].name), ToLower(""), 0);
    }
    FilterKeepsAll(files, (f: FileItem) => MatchesSearch(f, "") && MatchesSection(f, section));
  }

  // ---------------------------------------------------------------- star and delete

  /** The file with its `starred` flag negated: `{ ...file, starred: !file.starred }`. */
  function Toggled(file: FileItem): FileItem {
    file.(starred := !file.starred)
  }

  /** `handleStar(id)`: `prev.map(file => file.id === id ? toggled : file)`. */
  function HandleStar(files: seq<FileItem>, id: string): (r: seq<FileItem>)
    decreases |files|
  {
    if files == [] then []
    else [if files[0].id == id then Toggled(files[0]) else files[0]] + HandleStar(files[1..], id)
  }

  /** Toggling keeps the length and order; a file changes exactly when it has the id, and then
      only its `starred` flag, which is negated. */
  lemma {:induction false} HandleStarSpec(files: seq<FileItem>, id: string, i: nat)
    requires i < |files|
    ensures |HandleStar(files, id)| == |files|
    ensures HandleStar(files, id)[i].(starred := files[i].starred) == files[i]
    ensures HandleStar(files, id)[i].starred == (if files[i].id == id then !files[i].starred else files[i].starred)
    decreases |files|
  {
    if i > 0 {
      HandleStarSpec(files[1..], id, i - 1);
    } else if |files| > 1 {
      HandleStarSpec(files[1..], id, 0);
    }
  }

  /** Starring the same id twice restores the list. */
  lemma {:induction false} HandleStarTwice(files: seq<FileItem>, id: string)
    ensures HandleStar(HandleStar(files, id), id) == files
    decreases |files|
  {
    if files != [] {
      HandleStarTwice(files[1..], id);
    }
  }

  /** Starring does not change the storage sum. */
  lemma {:induction false} HandleStarStorage(files: seq<FileItem>, id: string)
    ensures StorageUsed(HandleStar(files, id)) == StorageUsed(files)
    decreases |files|
  {
    if files != [] {
      var r := HandleStar(files, id);
      HandleStarStorage(files[1..], id);
      assert files == [files[0]] + files[1..];
      StorageUsedAppend([files[0]], files[1..]);
      StorageUsedAppend([r[0]], r[1..]);
      assert StorageUsed([r[0]]) == StorageUsed([]) + r[0].size;
      assert StorageUsed([files[0]]) == StorageUsed([]) + files[0].size;
    }
  }

  /** `handleDelete(id)`: `prev.filter(f => f.id !== id)`. */
  function HandleDelete(files: seq<FileItem>, id: string): seq<FileItem> {
    Filter(files, (f: FileItem) => f.id != id)
  }

  /** After deleting, no file has the id, every other file remains, in order, and the storage
      sum does not grow; deleting again changes nothing. */
  lemma HandleDeleteSpec(files: seq<FileItem>, a: seq<FileItem>, b: seq<FileItem>, id: string, f: FileItem)
    ensures f in HandleDelete(files, id) <==> f in files && f.id != id
    ensures HandleDelete(a + b, id) == HandleDelete(a, id) + HandleDelete(b, id)
    ensures StorageUsed(HandleDelete(files, id)) <= StorageUsed(files)
    ensures HandleDelete(HandleDelete(files, id), id) == HandleDelete(files, id)
  {
    var keep := (f: FileItem) => f.id != id;
    FilterMembership(files, keep, f);
    FilterAppend(a, b, keep);
    StorageUsedFilter(files, keep);
    FilterIdempotent(files, keep);
  }

  // ---------------------------------------------------------------- uploads

  datatype UploadStatus = Uploading | Completed | Failed

  /** An `UploadingFile` of the progress panel; progress is a float and is left out. */
  datatype UploadingFile = UploadingFile(id: string, name: string, status: UploadStatus)

  /** `handleDismissUpload(id)`: `prev.filter(u => u.id !== id)`. */
  function HandleDismissUpload(uploads: seq<UploadingFile>, id: string): seq<UploadingFile> {
    Filter(uploads, (u: UploadingFile) => u.id != id)
  }

  /** Dismissing removes exactly the entries with the id and keeps the rest in order. */
  lemma HandleDismissUploadSpec(uploads: seq<UploadingFile>, a: seq<UploadingFile>, b: seq<UploadingFile>, id: string, u: UploadingFile)
    ensures u in HandleDismissUpload(uploads, id) <==> u in uploads && u.id != id
    ensures HandleDismissUpload(a + b, id) == HandleDismissUpload(a, id) + HandleDismissUpload(b, id)
  {
    FilterMembership(uploads, (u: UploadingFile) => u.id != id, u);
    FilterAppend(a, b, (u: UploadingFile) => u.id != id);
  }

  /** `handleClearAllUploads()`. */
  function HandleClearAllUploads(uploads: seq<UploadingFile>): seq<UploadingFile> {
    []
  }

  /** The ids of the uploads, in order. */
  function UploadIds(uploads: seq<UploadingFile>): (ids: seq<string>)
    ensures |ids| == |uploads| && forall i :: 0 <= i < |uploads| ==> ids[i] == uploads[i].id
  {
    seq(|uploads|, i requires 0 <= i < |uploads| => uploads[i].id)
  }

  /** Dismissing each of `ids` in turn. */
  function DismissEach(uploads: seq<UploadingFile>, ids: seq<string>): seq<UploadingFile>
    decreases |ids|
  {
    if ids == [] then uploads else DismissEach(HandleDismissUpload(uploads, ids[0]), ids[1..])
  }

  /** After dismissing each of `ids` in turn, exactly the uploads whose id is none of them remain. */
  lemma {:induction false} DismissEachMembership(uploads: seq<UploadingFile>, ids: seq<string>, u: UploadingFile)
    ensures u in DismissEach(uploads, ids) <==> u in uploads && u.id !in ids
    decreases |ids|
  {
    if ids != [] {
      HandleDismissUploadSpec(uploads, [], [], ids[0], u);
      DismissEachMembership(HandleDismissUpload(uploads, ids[0]), ids[1..], u);
      assert ids == [ids[0]] + ids[1..];
    }
  }

  /** Every upload's id is among the upload ids. */
  lemma IdOfMemberIn(uploads: seq<UploadingFile>, u: UploadingFile)
    requires u in uploads
    ensures u.id in UploadIds(uploads)
  {
    var i :| 0 <= i < |uploads| && uploads[i] == u;
    assert UploadIds(uploads)[i] == u.id;
  }

  /** Clearing all uploads is dismissing every upload's id in turn. */
  lemma ClearAllIsDismissEach(uploads: seq<UploadingFile>)
    ensures DismissEach(uploads, UploadIds(uploads)) == HandleClearAllUploads(uploads)
  {
    var r := DismissEach(uploads, UploadIds(uploads));
    if r != [] {
      DismissEachMembership(uploads, UploadIds(uploads), r[0]);
      IdOfMemberIn(uploads, r[0]);
      assert false;
    }
  }

  /** The 36 characters keys are drawn from. */
  const KeyAlphabet: string := "ABCDEFGHIJKLMNOPQRSTUVWXYZ0123456789"

  predicate IsKeyChar(c: char) {
    'A' <= c <= 'Z' || '0' <= c <= '9'
  }

  predicate IsDraw(r: real) {
    0.0 <= r < 1.0
  }

  /** The alphabet character `Math.floor(draw * 36)` picks. */
  function KeyChar(draw: real): (c: char)
    requires IsDraw(draw)
    ensures IsKeyChar(c)
  {
    var i := (draw * 36.0).Floor;
    assert 0 <= i < 36;
    if i < 26 then ('A' as int + i) as char else ('0' as int + i - 26) as char
  }

  /** `KeyChar` is indexing into `KeyAlphabet`. */
  lemma KeyCharIsAlphabetAt(draw: real)
    requires IsDraw(draw)
    ensures 0 <= (draw * 36.0).Floor < 36 && KeyChar(draw) == KeyAlphabet[(draw * 36.0).Floor]
  {
    var i := (draw * 36.0).Floor;
    assert KeyAlphabet == seq(36, j requires 0 <= j < 36 => if j < 26 then ('A' as int + j) as char else ('0' as int + j - 26) as char);
  }

  /** `generateEncryptionKey()`, with its six `Math.random()` draws passed in. */
  function GenerateEncryptionKey(draws: seq<real>): (key: string)
    requires |draws| == 6 && forall i :: 0 <= i < 6 ==> IsDraw(draws[i])
    ensures |key| == 6 && forall i :: 0 <= i < 6 ==> IsKeyChar(key[i])
  {
    seq(6, i requires 0 <= i < 6 => KeyChar(draws[i]))
  }

  /** The position of a key character in `KeyAlphabet`. */
  function KeyIndex(c: char): (i: nat)
    requires IsKeyChar(c)
    ensures i < 36
  {
    if 'A' <= c <= 'Z' then c as int - 'A' as int else 26 + c as int - '0' as int
  }

  /** Every six-character key over A-Z0-9 comes out of some six draws. */
  lemma EveryKeyReachable(key: string)
    requires |key| == 6 && forall i :: 0 <= i < 6 ==> IsKeyChar(key[i])
    ensures var draws := seq(6, i requires 0 <= i < 6 => KeyIndex(key[i]) as real / 36.0);
      && (forall i :: 0 <= i < 6 ==> IsDraw(draws[i]))
      && GenerateEncryptionKey(draws) == key
  {
    var draws := seq(6, i requires 0 <= i < 6 => KeyIndex(key[i]) as real / 36.0);
    forall i | 0 <= i < 6 ensures IsDraw(draws[i]) && KeyChar(draws[i]) == key[i] {
      assert draws[i] * 36.0 == KeyIndex(key[i]) as real;
    }
  }

  /** The `FileItem` a completed upload adds. `now` is `Date.now()`; `keyDraws` and
      `secondDraws` feed the two `generateEncryptionKey()` calls, the second being made only
      at the maximum level. */
  function UploadedItem(file: Crypto.File, settings: SecuritySettings, now: nat, keyDraws: seq<real>, secondDraws: seq<real>): FileItem
    requires |keyDraws| == 6 && forall i :: 0 <= i < 6 ==> IsDraw(keyDraws[i])
    requires |secondDraws| == 6 && forall i :: 0 <= i < 6 ==> IsDraw(secondDraws[i])
  {
    FileItem(
      id := "file-" + DecimalString(now) + "-" + file.name,
      name := file.name,
      mimeType := if file.mimeType != "" then file.mimeType else "application/octet-stream",
      size := file.Size(),
      starred := false,
      securityLevel := Some(settings.securityLevel),
      encryptionKey := Some(GenerateEncryptionKey(keyDraws)),
      secondaryEncryptionKey := if settings.securityLevel == Maximum then Some(GenerateEncryptionKey(secondDraws)) else None,
      recipientEmail := settings.recipientEmail)
  }

  /** A completed upload: `setFiles(prev => [newFile, ...prev])`. */
  function CompleteUpload(files: seq<FileItem>, file: Crypto.File, settings: SecuritySettings, now: nat,
                          keyDraws: seq<real>, secondDraws: seq<real>): seq<FileItem>
    requires |keyDraws| == 6 && forall i :: 0 <= i < 6 ==> IsDraw(keyDraws[i])
    requires |secondDraws| == 6 && forall i :: 0 <= i < 6 ==> IsDraw(secondDraws[i])
  {
    [UploadedItem(file, settings, now, keyDraws, secondDraws)] + files
  }

  /** The new file goes first and the existing files follow unchanged; it carries a 6-character
      A-Z0-9 key, its type (defaulted when empty), level and email, and a secondary key exactly at the maximum level; the
      storage sum grows by the file's size. */
  lemma CompleteUploadSpec(files: seq<FileItem>, file: Crypto.File, settings: SecuritySettings, now: nat,
                           keyDraws: seq<real>, secondDraws: seq<real>)
    requires |keyDraws| == 6 && forall i :: 0 <= i < 6 ==> IsDraw(keyDraws[i])
    requires |secondDraws| == 6 && forall i :: 0 <= i < 6 ==> IsDraw(secondDraws[i])
    ensures var r := CompleteUpload(files, file, settings, now, keyDraws, secondDraws);
      && |r| == |files| + 1 && r[1..] == files
      && r[0].name == file.name && r[0].size == file.Size()
      && r[0].mimeType == (if file.mimeType != "" then file.mimeType else "application/octet-stream")
      && r[0].securityLevel == Some(settings.securityLevel)
      && r[0].recipientEmail == settings.recipientEmail
      && !r[0].starred
      && r[0].encryptionKey.Some? && |r[0].encryptionKey.value| == 6
      && (forall i :: 0 <= i < 6 ==> IsKeyChar(r[0].encryptionKey.value[i]))
      && (r[0].secondaryEncryptionKey.Some? <==> settings.securityLevel == Maximum)
      && StorageUsed(r) == StorageUsed(files) + file.Size()
  {
    var r := CompleteUpload(files, file, settings, now, keyDraws, secondDraws);
    StorageUsedAppend([r[0]], files);
    assert StorageUsed([r[0]]) == StorageUsed([]) + r[0].size;
  }

  // ---------------------------------------------------------------- download

  /** `files.find(f => f.id === id)`. */
  function FindById(files: seq<FileItem>, id: string): (r: Option<FileItem>)
    ensures r.None? <==> forall i :: 0 <= i < |files| ==> files[i].id != id
    ensures r.Some? ==> exists i :: 0 <= i < |files| && files[i] == r.value
                          && r.value.id == id && forall j :: 0 <= j < i ==> files[j].id != id
    decreases |files|
  {
    if files == [] then None
    else if files[0].id == id then Some(files[0])
    else
      var r := FindById(files[1..], id);
      assert r.Some? ==> exists i :: 1 <= i < |files| && files[i] == r.value
                           && r.value.id == id && forall j :: 0 <= j < i ==> files[j].id != id by {
        if r.Some? {
          var i :| 0 <= i < |files[1..]| && files[1..][i] == r.value && r.value.id == id
                   && forall j :: 0 <= j < i ==> files[1..][j].id != id;
          assert files[i + 1] == r.value;
          assert forall j :: 1 <= j < i + 1 ==> files[j].id != id by {
            forall j | 1 <= j < i + 1 ensures files[j].id != id {
              assert files[j] == files[1..][j - 1];
            }
          }
        }
      }
      r
  }

  /** A JavaScript truthiness test on an optional string: present and not empty. */
  predicate Truthy(s: Option<string>) {
    s.Some? && s.value != ""
  }

  /** The test of `handleDownload`: level "maximum" with a recipient email and a secondary key. */
  predicate NeedsCode(file: FileItem) {
    file.securityLevel == Some(Maximum) && Truthy(file.recipientEmail) && Truthy(file.secondaryEncryptionKey)
  }

  /** What `handleDownload` does. */
  datatype DownloadAction =
    | NoAction                   // no current file has the id
    | AskForCode(file: FileItem) // sets `downloadingFile` and opens the decryption code dialog
    | ToastOnly(name: string)    // shows "Downloading <name>..." and nothing else

  /** `handleDownload(id)` over the current files. */
  function HandleDownload(currentFiles: seq<FileItem>, id: string): DownloadAction {
    match FindById(currentFiles, id)
    case None => NoAction
    case Some(f) => if NeedsCode(f) then AskForCode(f) else ToastOnly(f.name)
  }

  /** The dialog opens exactly for a first file with the id that passes the test; otherwise,
      when the id is found, only a toast is shown. */
  lemma HandleDownloadGating(currentFiles: seq<FileItem>, id: string)
    ensures HandleDownload(currentFiles, id).AskForCode?
      <==> FindById(currentFiles, id).Some? && NeedsCode(FindById(currentFiles, id).value)
    ensures HandleDownload(currentFiles, id).NoAction? <==> forall i :: 0 <= i < |currentFiles| ==> currentFiles[i].id != id
    ensures HandleDownload(currentFiles, id).AskForCode? ==>
      HandleDownload(currentFiles, id).file.securityLevel == Some(Maximum)
  {
  }

  /** The `expectedCode` the decryption dialog is given: `secondaryEncryptionKey || ""`. */
  function ExpectedCode(file: FileItem): string {
    if Truthy(file.secondaryEncryptionKey) then file.secondaryEncryptionKey.value else ""
  }

  /** A file uploaded through a confirmed dialog asks for the code on download exactly when
      its level was "maximum"; the code it expects is its secondary key. */
  lemma UploadedFileDownloadGate(files: seq<FileItem>, file: Crypto.File, level: SecurityLevel, email: string, now: nat,
                                 keyDraws: seq<real>, secondDraws: seq<real>)
    requires CanConfirm(level, email)
    requires |keyDraws| == 6 && forall i :: 0 <= i < 6 ==> IsDraw(keyDraws[i])
    requires |secondDraws| == 6 && forall i :: 0 <= i < 6 ==> IsDraw(secondDraws[i])
    ensures var item := UploadedItem(file, Settings(level, email), now, keyDraws, secondDraws);
      && (HandleDownload(CompleteUpload(files, file, Settings(level, email), now, keyDraws, secondDraws), item.id).AskForCode?
          <==> level == Maximum)
      && (level == Maximum ==> ExpectedCode(item) == GenerateEncryptionKey(secondDraws))
  {
    var item := UploadedItem(file, Settings(level, email), now, keyDraws, secondDraws);
    var r := CompleteUpload(files, file, Settings(level, email), now, keyDraws, secondDraws);
    assert r[0] == item;
    if level == Maximum {
      ConfirmedMaximumHasEmail(level, email);
      assert Truthy(item.recipientEmail);
    }
  }

  // ---------------------------------------------------------------- categories

  datatype FileTypeCategory = Image | Video | Audio | Archive | Document | Other

  /** `getFileTypeCategory(mimeType)`: the first test that matches, in source order. */
  function GetFileTypeCategory(mimeType: string): FileTypeCategory {
    if StartsWith(mimeType, "image/") then Image
    else if StartsWith(mimeType, "video/") then Video
    else if StartsWith(mimeType, "audio/") then Audio
    else if Includes(mimeType, "zip") || Includes(mimeType, "archive") then Archive
    else if Includes(mimeType, "pdf") || Includes(mimeType, "document") || Includes(mimeType, "text") then Document
    else Other
  }

  /** Each category is given exactly when its test is the first one to match. */
  lemma FileTypeCategoryIff(t: string)
    ensures GetFileTypeCategory(t) == Image <==> StartsWith(t, "image/")
    ensures GetFileTypeCategory(t) == Video <==> !StartsWith(t, "image/") && StartsWith(t, "video/")
    ensures GetFileTypeCategory(t) == Audio
      <==> (!StartsWith(t, "image/") && !StartsWith(t, "video/") && StartsWith(t, "audio/"))
    ensures GetFileTypeCategory(t) == Archive
      <==> (!StartsWith(t, "image/") && !StartsWith(t, "video/") && !StartsWith(t, "audio/")
            && (Includes(t, "zip") || Includes(t, "archive")))
    ensures GetFileTypeCategory(t) == Document
      <==> (!StartsWith(t, "image/") && !StartsWith(t, "video/") && !StartsWith(t, "audio/")
            && !Includes(t, "zip") && !Includes(t, "archive")
            && (Includes(t, "pdf") || Includes(t, "document") || Includes(t, "text")))
    ensures GetFileTypeCategory(t) == Other
      <==> (!StartsWith(t, "image/") && !StartsWith(t, "video/") && !StartsWith(t, "audio/")
            && !Includes(t, "zip") && !Includes(t, "archive")
            && !Includes(t, "pdf") && !Includes(t, "document") && !Includes(t, "text"))
  {
  }

  /** The category and the card icon agree on the media types, and both call a non-media type
      containing "zip" an archive; "text/html" is a document here but code on the card. */
  lemma CategoryAgreesWithIcon(t: string)
    ensures GetFileTypeCategory(t) == Image <==> GetFileIcon(t) == ImageIcon
    ensures GetFileTypeCategory(t) == Video <==> GetFileIcon(t) == VideoIcon
    ensures GetFileTypeCategory(t) == Audio <==> GetFileIcon(t) == AudioIcon
    ensures !StartsWith(t, "image/") && !StartsWith(t, "video/") && !StartsWith(t, "audio/") && Includes(t, "zip")
      ==> GetFileTypeCategory(t) == Archive && GetFileIcon(t) == ArchiveIcon
  {
  }

  /** "text/html" falls in the document category. */
  lemma HtmlIsDocumentCategory()
    ensures GetFileTypeCategory("text/html") == Document
  {
    var t := "text/html";
    assert OccursAt(t, "text", 0);
    NoMediaPrefix(t);
    assert 'z' !in t && 'r' !in t;
    if Includes(t, "zip") { IncludesChars(t, "zip", 0); }
    if Includes(t, "archive") { IncludesChars(t, "archive", 1); }
  }
}
