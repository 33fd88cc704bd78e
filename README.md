# cloudui: a verified model of the encrypted-package codec and its client logic

cloudui is a browser file manager. It encrypts a file under a short code and ships it as a
".encrypted" package:

    [u32 metadata length, little-endian][metadata bytes][16-byte salt][12-byte IV][AES-GCM ciphertext]

This project models, in Dafny:

- `crypto.dfy` (`Crypto`): the package codec of `src/lib/crypto.ts`.
  - `CreateEncryptedPackage` fills a preallocated byte array at a running offset.
  - `DecryptPackage` reads the same buffer back with clamping slices and a running offset.
  - `GenerateDecryptionCode` makes the six-digit code.
- `bytes.dfy` (`Bytes`): the byte type, `Uint8Array.slice` with its clamping, and the little-endian `Uint32Array` length field.
- `text.dfy` (`Text`): the string operations the components use: `startsWith`, `endsWith`, `includes`, ASCII `toLowerCase`/`toUpperCase`, decimal `toString` and the `maxLength` truncation of an input.
- `file_card.dfy` (`FileCard`): the `FileItem` record, the MIME-type icon classifier, the security icon and the badge rule of `FileCard.tsx`.
- `security_settings.dfy` (`SecuritySettingsDialog`): the `canConfirm` validator, and a `Dialog` class whose confirm emits the settings and then resets.
- `index_page.dfy` (`IndexPage`): the list logic of `src/pages/Index.tsx`.
  - The list operations: search/starred filter, storage sum, star toggle, delete, upload dismissal, prepending a completed upload.
  - Key generation, download gating and MIME categorisation.
- `decrypt_page.dfy` (`DecryptPage`): the decrypt page, as a `Page` class over its six state cells.
- `decryption_code_dialog.dfy` (`DecryptionCodeDialog`): the one-time-code dialog, as a `Dialog` class over `code`, `error`, `emailSent` and `open`.

## How the foreign parts are modelled

- **Cryptographic and text primitives.** PBKDF2 (section 5.2 of RFC 8018, HMAC-SHA-256, 100 000 iterations, 256-bit key), AES-GCM encryption and decryption (NIST SP 800-38D, 96-bit IV, 128-bit tag), UTF-8 encoding and the JSON metadata header are fields of the `Crypto.Primitives` datatype. The caller passes them in.
- **What the primitives are assumed to do.** Their properties are the ghost predicate `Crypto.Sound`:
  - decrypting an encryption under the same key and IV gives the plaintext back;
  - a ciphertext is the plaintext plus a 16-byte tag;
  - decoding an encoded header gives the header back.
  
  Every end-to-end lemma requires `Sound(p)`. Nothing is assumed globally.
- **Inputs from the environment.** Randomness becomes parameters: the salt and IV from `getRandomValues`, and each `Math.random()` draw as a real in [0, 1). The clock is also a parameter: the `encryptedAt` string and `Date.now()`.
- **Failures.** JavaScript exceptions become a `Result`, with one `Failure` case per place that can throw:
  - `HeaderUnreadable`: `Uint32Array` on fewer than 4 bytes, or `JSON.parse("")`;
  - `MetadataUnreadable`: the header does not decode;
  - `DecryptionFailed`: AES-GCM rejects.
- **Blob type.** `new Blob(..., { type })` normalises the type. It lower-cases a type made only of printable ASCII and drops any other type. This is `Crypto.BlobType`.

`decryptPackage` checks no bounds:
- there is no minimum total length;
- there is no check that the declared metadata length fits the buffer;
- there is no comparison of the decrypted length with `originalSize`.

Out-of-range offsets give clamped, short or empty slices. The only failures are the three above. This is what `Crypto.SplitClamps` and `Crypto.OpenFailsOnlyInMetadataOrDecryption` state.

## Model

| member | source | states |
|---|---|---|
| Bytes.Slice | src/lib/crypto.ts:117-131 | `Uint8Array.slice(start, end)` clamps both bounds to the buffer: its length is `min(end, len) - start` when that is positive and 0 otherwise. It equals the plain slice inside the bounds and agrees with the source byte by byte. |
| Bytes.SliceFrom | src/lib/crypto.ts:131 | `buffer.slice(offset)` is a slice up to the end of the buffer, with the same clamping. |
| Bytes.U32LE | src/lib/crypto.ts:82 | The `Uint32Array` length field is four bytes. |
| Bytes.ReadU32LE | src/lib/crypto.ts:112 | Reading four bytes yields a value below 2^32. |
| Bytes.ReadU32LEOfU32LE | src/lib/crypto.ts:82-90 | Reading back the written field gives the length modulo 2^32, so it round-trips exactly when the length is below 2^32. |
| Bytes.U32LEOfReadU32LE | src/lib/crypto.ts:112 | Every four-byte field is the encoding of the value read from it, so the encoding is a bijection onto four-byte sequences. |
| Crypto.EncryptFile | src/lib/crypto.ts:29-44 | The returned salt and IV are exactly the 16 and 12 drawn bytes that were used for the encryption. |
| Crypto.DeriveKey | src/lib/crypto.ts:4-26 | Key derivation: PBKDF2 with 100000 iterations, SHA-256 and a 256-bit key over the encoded code and the salt. A function, so the same code and salt always give the same key; `Crypto.DecryptFileOfEncryptFile` states what that buys. |
| Crypto.DecryptFile | src/lib/crypto.ts:47-62 | AES-GCM decryption under the key derived from the code and salt, `None` when it rejects. Its partner is `Crypto.DecryptFileOfEncryptFile`. |
| Crypto.DecryptFileOfEncryptFile | src/lib/crypto.ts:14-25 | Key derivation is a function of code and salt with fixed PBKDF2 parameters. So decrypting under the same code, salt and IV recovers the content, and the ciphertext is 16 bytes longer. |
| Crypto.SetBytes | src/lib/crypto.ts:90-98 | `packageBuffer.set(src, offset)` writes `src` at the offset and leaves the bytes before and after unchanged. |
| Crypto.Layout | src/lib/crypto.ts:84 | The package layout: the four-byte length field, then metadata, salt, IV and ciphertext with nothing between them. `Crypto.LayoutFields` gives its offsets and `Crypto.SplitLayout` its inverse. |
| Crypto.PackageBytes | src/lib/crypto.ts:69-98 | The bytes of the package for a file: the layout of the encoded header, salt, IV and ciphertext. `Crypto.CreateEncryptedPackage` is proved to build exactly these bytes, and `Crypto.PackageLength` gives their length. |
| Crypto.CreateEncryptedPackage | src/lib/crypto.ts:65-101 | The package filled in place is, byte for byte, the layout of the length field, header bytes, salt, IV and ciphertext, typed "application/octet-stream". |
| Crypto.PackageLength | src/lib/crypto.ts:85-87 | With sound primitives the package is exactly 4 + metadata length + 16 + 12 + file size + 16 bytes long. |
| Crypto.LayoutFields | src/lib/crypto.ts:84-98 | The fields sit at fixed offsets with no padding: [0,4) is the length field, [4,4+m) the metadata, then 16 bytes of salt, 12 bytes of IV, and the rest is ciphertext. |
| Crypto.SplitLayout | src/lib/crypto.ts:112-131 | Parsing a package whose metadata is shorter than 2^32 bytes returns exactly the metadata, salt, IV and ciphertext that were written. |
| Crypto.SplitLayoutWraps | src/lib/crypto.ts:82 | With metadata of 2^32 bytes or more, the parser reads only the first length-mod-2^32 metadata bytes. |
| Crypto.LayoutSplit | src/lib/crypto.ts:112-131 | Conversely, a buffer whose declared metadata, salt and IV all fit is exactly the layout of the sections parsed out of it. |
| Crypto.Split | src/lib/crypto.ts:108-131 | Parsing into sections: nothing when there are fewer than 4 bytes, otherwise the clamped slices at the running offsets. `Crypto.SplitLayout`, `Crypto.LayoutSplit` and `Crypto.SplitClamps` characterise it. |
| Crypto.SplitClamps | src/lib/crypto.ts:117-131 | Any buffer of at least 4 bytes parses, and no bound is checked. The metadata, salt, IV and ciphertext, joined in order, are exactly the bytes after the length field. Each is at most its declared size, and a section cut short by the end of the buffer leaves every later section empty. |
| Crypto.DecryptPackage | src/lib/crypto.ts:104-144 | Reading at a running offset gives the same result as the reference `OpenPackage`: the sections, the header decode, the decryption, and the blob typed by the header's MIME type with name, type and size from the header. |
| Crypto.OpenPackage | src/lib/crypto.ts:104-144 | The reference result of `decryptPackage`: parse, decode the header, decrypt, and build the blob and metadata, with a `Failure` at each step that throws. `Crypto.OpenCreatedPackage`, `Crypto.OpenFailsOnlyInMetadataOrDecryption` and `Crypto.OpenShortBuffer` characterise it. |
| Crypto.BlobType | src/lib/crypto.ts:137 | The blob's type is empty exactly when the given type is empty or holds a character outside printable ASCII. Otherwise it is the given type, lower-cased character by character. |
| Crypto.BlobTypeKeepsNormalType | src/lib/crypto.ts:137 | A type already in printable lower-case ASCII is kept unchanged. |
| Crypto.OpenCreatedPackage | src/lib/crypto.ts:65-144 | End to end: opening a created package under the same code returns the file's bytes and its name, MIME type and size (`originalSize` = `file.size`). |
| Crypto.OpenFailsOnlyInMetadataOrDecryption | src/lib/crypto.ts:117-134 | On a buffer of at least 4 bytes the only failures are an unreadable header or a rejected decryption. A success is exactly the decrypted clamped sections, and the decrypted length is never compared with `originalSize`. |
| Crypto.OpenShortBuffer | src/lib/crypto.ts:112 | A buffer shorter than 4 bytes fails with an unreadable header. |
| Crypto.GenerateDecryptionCode | src/lib/crypto.ts:147-149 | The code is exactly six decimal digits, with value in 100000..999999. |
| Crypto.EveryDecryptionCodeReachable | src/lib/crypto.ts:147-149 | Every value in 100000..999999 is produced by some draw. |
| FileCard.MediaPrefixWins | src/components/files/FileCard.tsx:57-59 | Types starting with "image/", "video/" or "audio/" get the image, video or audio icon, whatever follows. |
| FileCard.GetFileIcon | src/components/files/FileCard.tsx:56-67 | The icon `if` chain, in source order. `FileCard.MediaPrefixWins` and `FileCard.FileIconIff` characterise it. |
| FileCard.FileIconIff | src/components/files/FileCard.tsx:56-67 | The icon is archive, code, document or generic exactly when the earlier tests fail and this one holds (zip/rar/tar; javascript/typescript/json/html/css; pdf/document/text; nothing). |
| FileCard.HtmlIsCode | src/components/files/FileCard.tsx:62-65 | "text/html" passes the document test but gets the code icon, because the code test runs first. |
| FileCard.PlainTextIsDocument | src/components/files/FileCard.tsx:64-65 | "text/plain" gets the document icon. |
| FileCard.NoMediaPrefix | src/components/files/FileCard.tsx:57-59 | A type whose first letter is not i, v or a has none of the media prefixes. |
| FileCard.NoArchiveKeyword | src/components/files/FileCard.tsx:60 | A type without the letters z and r contains none of the archive keywords. |
| FileCard.NoArchiveOrCodeKeyword | src/components/files/FileCard.tsx:60-62 | A type without z, r, j, y, h and c contains no archive and no code keyword. |
| FileCard.GetSecurityIcon | src/components/files/FileCard.tsx:87-96 | The security `switch`. `FileCard.BadgeIffDistinctShield` characterises it. |
| FileCard.ShowsSecurityBadge | src/components/files/FileCard.tsx:115 | The badge test, `level && level !== "standard"`. `FileCard.BadgeIffDistinctShield` relates it to the security icon. |
| FileCard.BadgeIffDistinctShield | src/components/files/FileCard.tsx:87-96 | "maximum" maps to the alert shield and "high" to the check shield. Anything else, including no level, maps to the plain shield. The badge shows exactly when the level is set and not "standard" (lines 115 and 171), that is, exactly when the shield is not the plain one. |
| SecuritySettingsDialog.CanConfirmRule | src/components/files/SecuritySettingsDialog.tsx:76-77 | "standard" and "high" can always be confirmed. "maximum" can be confirmed exactly when the email contains "@". |
| SecuritySettingsDialog.Settings | src/components/files/SecuritySettingsDialog.tsx:67-70 | The emitted settings carry the chosen level. They carry the recipient email exactly when the level is "maximum", and then it is the typed email. |
| SecuritySettingsDialog.CanConfirm | src/components/files/SecuritySettingsDialog.tsx:76-77 | `canConfirm`, written as the source writes it. `SecuritySettingsDialog.CanConfirmRule` gives its meaning. |
| SecuritySettingsDialog.ConfirmedMaximumHasEmail | src/components/files/SecuritySettingsDialog.tsx:67-77 | A confirmable "maximum" choice emits an email that contains "@". |
| SecuritySettingsDialog.Dialog.constructor | src/components/files/SecuritySettingsDialog.tsx:63-64 | The level starts at "standard" and the email at "". |
| SecuritySettingsDialog.Dialog.SelectLevel | src/components/files/SecuritySettingsDialog.tsx:95 | Picking a level changes only the level. |
| SecuritySettingsDialog.Dialog.SetRecipientEmail | src/components/files/SecuritySettingsDialog.tsx:144 | Typing changes only the email. |
| SecuritySettingsDialog.Dialog.HandleConfirm | src/components/files/SecuritySettingsDialog.tsx:66-74 | Confirm emits the settings for the old level and email, then resets to "standard" and "" and closes. |
| SecuritySettingsDialog.Dialog.ClickConfirm | src/components/files/SecuritySettingsDialog.tsx:163-165 | The confirm button emits exactly when `canConfirm` holds. While disabled it changes nothing. |
| SecuritySettingsDialog.Dialog.Cancel | src/components/files/SecuritySettingsDialog.tsx:158 | Cancel closes the dialog and keeps the level and email. |
| IndexPage.Filter | src/pages/Index.tsx:63-67 | `Array.filter` never lengthens the list. |
| IndexPage.FilterMembership | src/pages/Index.tsx:63-67 | An element is kept exactly when it is in the list and passes the test. |
| IndexPage.FilterAppend | src/pages/Index.tsx:63-67 | Filtering distributes over concatenation, so the original order is kept. |
| IndexPage.FilterKeepsAll | src/pages/Index.tsx:63-67 | When every element passes, the list is unchanged. |
| IndexPage.FilterIdempotent | src/pages/Index.tsx:63-67 | Filtering twice is filtering once. |
| IndexPage.StorageUsed | src/pages/Index.tsx:58 | The `reduce` sum of the sizes. `IndexPage.StorageUsedAppend`, `IndexPage.StorageUsedCountsEach` and `IndexPage.StorageUsedFilter` characterise it. |
| IndexPage.StorageUsedAppend | src/pages/Index.tsx:58 | The storage sum is additive over concatenation. |
| IndexPage.StorageUsedCountsEach | src/pages/Index.tsx:58 | Every file's size is counted in the storage sum. |
| IndexPage.StorageUsedFilter | src/pages/Index.tsx:58 | Removing files never raises storage used. |
| IndexPage.FilteredFiles | src/pages/Index.tsx:63-67 | The search and section filter. `IndexPage.FilteredFilesSpec` and `IndexPage.EmptyQueryListsAll` characterise it. |
| IndexPage.FilteredFilesSpec | src/pages/Index.tsx:63-67 | A file is listed exactly when it is in the current list, its lower-cased name contains the lower-cased query, and, in the "starred" section, it is starred. The result keeps the original order. |
| IndexPage.EmptyQueryListsAll | src/pages/Index.tsx:63-67 | Outside "starred", the empty query lists every file in its order. |
| IndexPage.HandleStar | src/pages/Index.tsx:139-143 | The star toggle as a `map`. `IndexPage.HandleStarSpec`, `IndexPage.HandleStarTwice` and `IndexPage.HandleStarStorage` characterise it. |
| IndexPage.HandleStarSpec | src/pages/Index.tsx:138-144 | The star toggle keeps the length and order. It negates `starred` on files with the id and changes nothing else. |
| IndexPage.HandleStarTwice | src/pages/Index.tsx:138-144 | Toggling twice restores the list. |
| IndexPage.HandleStarStorage | src/pages/Index.tsx:58-144 | Toggling stars leaves storage used unchanged. |
| IndexPage.HandleDelete | src/pages/Index.tsx:148 | Delete as a `filter` on the id. `IndexPage.HandleDeleteSpec` characterises it. |
| IndexPage.HandleDeleteSpec | src/pages/Index.tsx:146-150 | Delete removes exactly the files with the id and keeps the rest in order. It does not raise storage used, and deleting again changes nothing. |
| IndexPage.HandleDismissUpload | src/pages/Index.tsx:179-181 | Dismissal as a `filter` on the id. `IndexPage.HandleDismissUploadSpec` characterises it. |
| IndexPage.HandleDismissUploadSpec | src/pages/Index.tsx:179-181 | Dismissing removes exactly the uploads with the id and keeps the rest in order. |
| IndexPage.HandleClearAllUploads | src/pages/Index.tsx:183-185 | Clearing empties the upload list. `IndexPage.ClearAllIsDismissEach` relates it to dismissal. |
| IndexPage.UploadIds | src/pages/Index.tsx:179-185 | The ids of the uploads, position by position. |
| IndexPage.DismissEachMembership | src/pages/Index.tsx:179-181 | After dismissing each of a list of ids in turn, an upload remains exactly when it was there and its id is none of them. |
| IndexPage.ClearAllIsDismissEach | src/pages/Index.tsx:179-185 | Clearing all uploads gives the same list as dismissing every upload's id in turn. |
| IndexPage.KeyChar | src/pages/Index.tsx:18 | A character drawn by `Math.floor(Math.random() * 36)` is in A-Z0-9. |
| IndexPage.KeyCharIsAlphabetAt | src/pages/Index.tsx:18 | That character is the alphabet string's character at the drawn index. |
| IndexPage.GenerateEncryptionKey | src/pages/Index.tsx:16-20 | A key is six characters, each in A-Z0-9. |
| IndexPage.EveryKeyReachable | src/pages/Index.tsx:16-20 | Every six-character A-Z0-9 key is produced by some six draws. |
| IndexPage.UploadedItem | src/pages/Index.tsx:103-113 | The `FileItem` a completed upload adds. `IndexPage.CompleteUploadSpec` states its fields. |
| IndexPage.CompleteUpload | src/pages/Index.tsx:115 | The prepend `[newFile, ...prev]`. `IndexPage.CompleteUploadSpec` characterises it. |
| IndexPage.CompleteUploadSpec | src/pages/Index.tsx:103-115 | A completed upload is prepended and the old files follow unchanged. It records name, size, level and email, and its type defaults to "application/octet-stream". It has a six-character key, and a secondary key exactly when the level is "maximum". Storage grows by its size. |
| IndexPage.FindById | src/pages/Index.tsx:153 | `find` returns the first file with the id, or nothing when none has it. |
| IndexPage.HandleDownload | src/pages/Index.tsx:152-162 | What `handleDownload` does: nothing, open the code dialog, or only a toast. `IndexPage.HandleDownloadGating` characterises it. |
| IndexPage.HandleDownloadGating | src/pages/Index.tsx:152-162 | Download asks for the code exactly when the file has level "maximum", a non-empty recipient email and a non-empty secondary key. An unknown id does nothing, and any other file only gets a toast. |
| IndexPage.UploadedFileDownloadGate | src/pages/Index.tsx:103-162 | A file uploaded through a confirmable dialog asks for a code exactly when its level was "maximum". The code it expects is its secondary key. |
| IndexPage.FileTypeCategoryIff | src/pages/Index.tsx:188-195 | Each category is given exactly when its test is the first to match: the "image/", "video/" and "audio/" prefixes, then "zip"/"archive", then "pdf"/"document"/"text", and "other" when none matches. |
| IndexPage.GetFileTypeCategory | src/pages/Index.tsx:188-195 | The category `if` chain, in source order. `IndexPage.FileTypeCategoryIff` characterises it. |
| IndexPage.CategoryAgreesWithIcon | src/pages/Index.tsx:188-195 | The category agrees with the card's icon on the media prefixes and on "zip". Apart from that, the two classifiers use different keyword lists. |
| IndexPage.HtmlIsDocumentCategory | src/pages/Index.tsx:193 | "text/html" is a document category here, though the card shows it as code. |
| DecryptPage.Page.constructor | src/pages/Decrypt.tsx:13-18 | The six cells start empty and idle. |
| DecryptPage.Page.SelectFile | src/pages/Decrypt.tsx:22-31 | The shared body of the two file handlers, stated by the two-state predicate `Selected`: a missing file or a wrong suffix changes nothing, and a package is taken with the previous result cleared and the typed code kept. |
| DecryptPage.Page.HandleFileSelect | src/pages/Decrypt.tsx:20-33 | No file, or a name not ending in ".encrypted", changes nothing (the latter raises a toast). A package is taken with state "file-selected", and the blob, name and error are cleared. |
| DecryptPage.Page.HandleDrop | src/pages/Decrypt.tsx:35-49 | The same rule, `Selected`, for a dropped file. |
| DecryptPage.Page.SetDecryptionCode | src/pages/Decrypt.tsx:185-188 | Typing stores at most six characters, and is ignored while decrypting and after success. |
| DecryptPage.Page.BeginDecrypt | src/pages/Decrypt.tsx:51-58 | With no file or an empty code nothing changes. Otherwise the state becomes "decrypting" and the error is cleared. |
| DecryptPage.Page.FinishDecrypt | src/pages/Decrypt.tsx:60-70 | Success stores the blob and `metadata.fileName` and enters "success". Any failure enters "error" with the single message "Invalid decryption code or corrupted file". |
| DecryptPage.Page.HandleDecrypt | src/pages/Decrypt.tsx:51-71 | The whole handler starts exactly when a file and a non-empty code are present. Its outcome is then that of opening the selected file's bytes under the code. Success stores the blob and name and clears the error. Failure sets the single message and keeps the previous blob and name. The file and code never change. |
| DecryptPage.Page.DecryptEnabled | src/pages/Decrypt.tsx:202 | An enabled button (file present, code of length six, neither decrypting nor done) always gets past the handler's own guard. |
| DecryptPage.Page.ClickDecrypt | src/pages/Decrypt.tsx:199-202 | A click decrypts exactly when the button is enabled, with the outcomes of `HandleDecrypt`, and failure keeps the previous blob and name. Otherwise it changes nothing. |
| DecryptPage.Page.HandleDownload | src/pages/Decrypt.tsx:73-74 | A download happens exactly when both the blob and the file name are present. It carries them. |
| DecryptPage.Page.HandleReset | src/pages/Decrypt.tsx:88-95 | Reset restores all six cells to their initial values. |
| DecryptPage.DecryptGeneratedPackage | src/pages/Decrypt.tsx:35-86 | A package created under a generated code, dropped on the page, with the code typed and decrypt clicked, ends in "success". When the original name is not empty, the download is the original bytes under that name; an empty name gives no download, because of the guard at line 74. |
| DecryptionCodeDialog.Dialog.constructor | src/components/files/DecryptionCodeDialog.tsx:33-35 | Code and error start empty, and no code has been sent. |
| DecryptionCodeDialog.Dialog.HandleSendCode | src/components/files/DecryptionCodeDialog.tsx:37-40 | Sending sets `emailSent` and clears the error. |
| DecryptionCodeDialog.Dialog.HandleInput | src/components/files/DecryptionCodeDialog.tsx:109-121 | Once the code was sent, typing stores at most six characters, upper-cased, and clears the error. |
| DecryptionCodeDialog.Dialog.HandleVerify | src/components/files/DecryptionCodeDialog.tsx:42-52 | Verify succeeds exactly when the code equals the expected one, and then resets and closes. A mismatch only sets the error message. |
| DecryptionCodeDialog.Dialog.VerifyEnabled | src/components/files/DecryptionCodeDialog.tsx:145-149 | The verify button is enabled only when it is shown, which is after the code was sent. It also needs at least six characters typed. |
| DecryptionCodeDialog.Dialog.ClickVerify | src/components/files/DecryptionCodeDialog.tsx:145-152 | A click succeeds exactly when the button is enabled and the code matches. An enabled mismatch only sets the error message. A disabled button changes nothing. |
| DecryptionCodeDialog.Dialog.HandleClose | src/components/files/DecryptionCodeDialog.tsx:54-59 | Close resets code, error and `emailSent`, and closes. |
| DecryptionCodeDialog.TypedKeyIsStored | src/components/files/DecryptionCodeDialog.tsx:114-119 | A generated key, typed in upper or lower case, is stored as exactly the key. |
| DecryptionCodeDialog.VerifyGeneratedKey | src/components/files/DecryptionCodeDialog.tsx:37-59 | For a generated secondary key: sending the code, typing the key in lower case and clicking verify succeeds, and the dialog ends closed. |
| Text.IncludesChar | src/components/files/SecuritySettingsDialog.tsx:77 | `includes` of a one-character string means that character occurs. |
| Text.StartsWith | src/components/files/FileCard.tsx:57-59 | `startsWith`: the string begins with the prefix. |
| Text.EndsWith | src/pages/Decrypt.tsx:23 | `endsWith`: the string ends with the suffix. |
| Text.Includes | src/components/files/FileCard.tsx:60-64 | `includes`: the substring occurs at some position. `Text.IncludesChar` relates it to character membership, and `Text.IncludesChars` says every character of an included string occurs in the string. |
| Text.ToLower | src/pages/Index.tsx:64 | `toLowerCase`, for ASCII letters: same length, lower-cased character by character. |
| Text.ToUpper | src/components/files/DecryptionCodeDialog.tsx:115 | `toUpperCase`, for ASCII letters: same length, upper-cased character by character. |
| Text.ToUpperOfToLower | src/components/files/DecryptionCodeDialog.tsx:115 | Upper-casing a lower-cased string equals upper-casing the original. |
| Text.ToUpperFixes | src/components/files/DecryptionCodeDialog.tsx:115 | A string with no lower-case ASCII letter is unchanged by upper-casing. |
| Text.DecimalString | src/lib/crypto.ts:148 | `toString` of a natural number: a non-empty string of decimal digits. |
| Text.DecimalValueOfString | src/lib/crypto.ts:148 | `toString` of a natural number reads back as that number. |
| Text.DecimalStringLength | src/lib/crypto.ts:148 | A number with k digits prints as k characters with no leading zero. |
| Text.Truncate | src/pages/Decrypt.tsx:186 | What a `maxLength` input delivers: a prefix of what was typed, of at most the limit, and all of it when it fits. |

## Left out

- Cryptographic internals: PBKDF2, SHA-256, AES-GCM and Web Crypto's `importKey`/`deriveKey`/`encrypt`/`decrypt` are foreign calls. They are parameters whose round trip is the `Sound` precondition.
- The JSON/UTF-8 metadata text: the header's encode and decode are parameters with an assumed round trip. What an arbitrary byte string decodes to is not modelled.
- Async plumbing (`arrayBuffer`, promises), toasts and the download-link DOM steps of `handleDownload` are I/O.
- DecryptPage.Page.HandleDecrypt: runs to completion as one step. In the page, Clear (`handleReset`) or a new drop can happen while a decryption is pending. When that decryption settles it writes "success" or "error" over the reset or newly selected page. With no file selected this breaks `Page.Valid()`. Such interleavings, and two decryptions in flight at once, are not modelled. `BeginDecrypt` and `FinishDecrypt` are the two halves between which they would occur.
- The upload progress simulation (src/pages/Index.tsx:85-132) uses timers and float increments. Only its outcome, the prepend at line 115, is modelled. `handleSecurityConfirm`'s upload ids use float-free `Date.now()` but are not modelled.
- `Math.random()` draws are reals in [0, 1), and IEEE-754 rounding of `100000 + r * 900000` and `r * 36` is not modelled.
- File sizes and dates are not formatted: `formatFileSize`, `formatDate` and the sidebar percentage are float and locale code.
- `toLowerCase`/`toUpperCase` are modelled for ASCII letters only. Unicode case mapping, including length-changing cases, is not.
- `handleDecryptionSuccess`, `handleFileClick`, `handleFilesSelected` and the view/section toggles of Index.tsx only set dialog and selection cells or show toasts, so they are not modelled.
- Server code (server/app.py, server/storage.ts, server/index.ts), shared/schema.ts, the chat and admin pages and the purely presentational components are not part of this model.
- The effect of the salt and IV being fresh: the model does not reason about randomness, so wrong-code rejection and tamper detection, which depend on AES-GCM's security, are not stated.
- Crypto.OpenCreatedPackage: requires the encoded header to be shorter than 2^32 bytes. Beyond that the length field wraps, as `Crypto.SplitLayoutWraps` shows.
- DecryptPage.Page.SetDecryptionCode and DecryptionCodeDialog.Dialog.HandleInput: `maxLength` is modelled by `Text.Truncate`, which keeps the first six characters of the value the handler receives. A browser instead refuses typed characters once the field is full and shortens pasted text so that the result fits, so it never cuts off the end of the value already in the field. The two agree when text is added at the end; for an insertion earlier in the field they differ (with "12345" in the field and "AB" pasted at the start, the browser shows "A12345" and the model stores "AB1234"). The bound of six characters holds either way.
- Strings are Dafny `seq<char>`, whose elements are Unicode scalar values. JavaScript's `.length` and `maxLength` count UTF-16 code units, so a character outside the Basic Multilingual Plane is one element here but two units in the browser. On such input, `DecryptPage.Page.DecryptEnabled`'s length test, `DecryptionCodeDialog.Dialog.VerifyEnabled`'s length test and `Text.Truncate` can differ from the browser.
- Bytes.U32LE: the length field is written and read in little-endian order. The source uses `Uint32Array`, which uses the host's byte order; that is little-endian on the platforms the page runs on, and a big-endian host is not modelled.
