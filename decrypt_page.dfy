/**
 * The stand-alone decrypt page (src/pages/Decrypt.tsx): six state cells that
 * the file picker, the drop zone, the code input and the buttons overwrite.
 */
module DecryptPage {
  import opened Wrappers
  import opened Text
  import Crypto
  import Bytes

  datatype DecryptionState = Idle | FileSelected | Decrypting | Success | Error

  /** The one message shown for every failure, whatever its cause. */
  const FailureMessage: string := "Invalid decryption code or corrupted file"
  const PackageSuffix: string := ".encrypted"
  /** The `maxLength` of the code input. */
  const CodeLength: nat := 6

  /** What the download button hands to the browser: the decrypted blob under its file name. */
  datatype Download = Download(blob: Crypto.Blob, fileName: string)

  class Page {
    var encryptedFile: Option<Crypto.File>
    var decryptionCode: string
    var state: DecryptionState
    var decryptedBlob: Option<Crypto.Blob>
    var decryptedFileName: string
    var errorMessage: string

    /** The page's invariant: a file is selected in every state but idle, a successful page
        holds its blob, and the error message is shown exactly in the error state. */
    ghost predicate Valid()
      reads this
    {
      && (state == Idle <==> encryptedFile.None?)
      && (state == Success ==> decryptedBlob.Some?)
      && errorMessage == (if state == Error then FailureMessage else "")
    }

    /** The initial values of the six cells. */
    ghost predicate IsInitial()
      reads this
    {
      && encryptedFile == None && decryptionCode == "" && state == Idle
      && decryptedBlob == None && decryptedFileName == "" && errorMessage == ""
    }

    constructor ()
      ensures Valid() && IsInitial()
    {
      encryptedFile := None;
      decryptionCode := "";
      state := Idle;
      decryptedBlob := None;
      decryptedFileName := "";
      errorMessage := "";
    }

    /** The outcome of offering `file` to the page: a file without the ".encrypted" suffix is
        rejected (a toast); no file or a rejected one changes nothing; an accepted one is taken
        and the previous result cleared, keeping the typed code. */
    twostate predicate Selected(file: Option<Crypto.File>, rejected: bool)
      reads this
    {
      && (rejected <==> file.Some? && !EndsWith(file.value.name, PackageSuffix))
      && (file.None? || rejected ==>
        && encryptedFile == old(encryptedFile) && decryptionCode == old(decryptionCode) && state == old(state)
        && decryptedBlob == old(decryptedBlob) && decryptedFileName == old(decryptedFileName)
        && errorMessage == old(errorMessage))
      && (file.Some? && !rejected ==>
        && encryptedFile == file && state == FileSelected && decryptedBlob == None
        && decryptedFileName == "" && errorMessage == "" && decryptionCode == old(decryptionCode))
    }

    /** The shared body of `handleFileSelect` and `handleDrop`: no file, or a name without the
        ".encrypted" suffix (a toast), changes nothing; otherwise the file is taken and the
        previous result cleared. */
    method SelectFile(file: Option<Crypto.File>) returns (rejected: bool)
      requires Valid()
      modifies this
      ensures Valid()
      ensures Selected(file, rejected)
    {
      rejected := false;
      if file.Some? {
        if !EndsWith(file.value.name, PackageSuffix) {
          rejected := true;
          return;
        }
        encryptedFile := file;
        state := FileSelected;
        decryptedBlob := None;
        decryptedFileName := "";
        errorMessage := "";
      }
    }

    /** `handleFileSelect`: the first file of the picker, if any. */
    method HandleFileSelect(file: Option<Crypto.File>) returns (rejected: bool)
      requires Valid()
      modifies this
      ensures Valid()
      ensures Selected(file, rejected)
    {
      rejected := SelectFile(file);
    }

    /** `handleDrop`: the first dropped file, if any, under the same rule. */
    method HandleDrop(file: Option<Crypto.File>) returns (rejected: bool)
      requires Valid()
      modifies this
      ensures Valid()
      ensures Selected(file, rejected)
    {
      rejected := SelectFile(file);
    }

    /** Whether the code input accepts typing. */
    predicate CodeInputEnabled()
      reads this
    {
      state != Decrypting && state != Success
    }

    /** The code input's `onChange`: the input is disabled while decrypting and after success,
        and its `maxLength` keeps at most six characters. */
    method SetDecryptionCode(value: string)
      requires Valid()
      modifies this
      ensures Valid()
      ensures decryptionCode == if old(CodeInputEnabled()) then Truncate(value, CodeLength) else old(decryptionCode)
      ensures encryptedFile == old(encryptedFile) && state == old(state) && decryptedBlob == old(decryptedBlob)
      ensures decryptedFileName == old(decryptedFileName) && errorMessage == old(errorMessage)
    {
      if CodeInputEnabled() {
        decryptionCode := Truncate(value, CodeLength);
      }
    }

    /** The first, synchronous half of `handleDecrypt`: with no file or an empty code nothing
        changes (a toast); otherwise the page enters "decrypting" and clears the error. */
    method BeginDecrypt() returns (started: bool)
      requires Valid()
      modifies this
      ensures Valid()
      ensures started <==> old(encryptedFile).Some? && old(decryptionCode) != ""
      ensures state == (if started then Decrypting else old(state))
      ensures errorMessage == (if started then "" else old(errorMessage))
      ensures encryptedFile == old(encryptedFile) && decryptionCode == old(decryptionCode)
      ensures decryptedBlob == old(decryptedBlob) && decryptedFileName == old(decryptedFileName)
    {
      if encryptedFile.None? || decryptionCode == "" {
        return false;
      }
      state := Decrypting;
      errorMessage := "";
      started := true;
    }

    /** The second half of `handleDecrypt`, once `decryptPackage` has settled: the blob and the
        metadata's file name on success, the one failure message on any rejection. */
    method FinishDecrypt(r: Result<Crypto.Opened, Crypto.Failure>)
      requires Valid() && state == Decrypting
      modifies this
      ensures Valid()
      ensures r.Ok? ==> state == Success && decryptedBlob == Some(r.value.file)
                        && decryptedFileName == r.value.metadata.fileName && errorMessage == ""
      ensures r.Err? ==> state == Error && errorMessage == FailureMessage
                         && decryptedBlob == old(decryptedBlob) && decryptedFileName == old(decryptedFileName)
      ensures encryptedFile == old(encryptedFile) && decryptionCode == old(decryptionCode)
    {
      if r.Ok? {
        decryptedBlob := Some(r.value.file);
        decryptedFileName := r.value.metadata.fileName;
        state := Success;
      } else {
        state := Error;
        errorMessage := FailureMessage;
      }
    }

    /** `handleDecrypt()`: both halves, with `decryptPackage` on the selected file's bytes and
        the typed code in between. */
    method HandleDecrypt(p: Crypto.Primitives) returns (started: bool)
      requires Valid()
      modifies this
      ensures Valid()
      ensures started <==> old(encryptedFile).Some? && old(decryptionCode) != ""
      ensures !started ==>
        && state == old(state) && errorMessage == old(errorMessage)
        && decryptedBlob == old(decryptedBlob) && decryptedFileName == old(decryptedFileName)
      ensures started ==>
        var r := Crypto.OpenPackage(p, old(encryptedFile).value.bytes, old(decryptionCode));
        && (r.Ok? ==> state == Success && decryptedBlob == Some(r.value.file)
                      && decryptedFileName == r.value.metadata.fileName && errorMessage == "")
        && (r.Err? ==> state == Error && errorMessage == FailureMessage
                       && decryptedBlob == old(decryptedBlob) && decryptedFileName == old(decryptedFileName))
      ensures encryptedFile == old(encryptedFile) && decryptionCode == old(decryptionCode)
    {
      started := BeginDecrypt();
      if started {
        var r := Crypto.DecryptPackage(p, encryptedFile.value.bytes, decryptionCode);
        FinishDecrypt(r);
      }
    }

    /** Whether the decrypt button is enabled. An enabled button always gets past the
        handler's own check. */
    predicate DecryptEnabled()
      reads this
      ensures DecryptEnabled() ==> encryptedFile.Some? && decryptionCode != ""
    {
      encryptedFile.Some? && |decryptionCode| == CodeLength && state != Decrypting && state != Success
    }

    /** A click on the decrypt button, which does nothing while it is disabled. */
    method ClickDecrypt(p: Crypto.Primitives) returns (started: bool)
      requires Valid()
      modifies this
      ensures Valid()
      ensures started <==> old(DecryptEnabled())
      ensures !started ==>
        && state == old(state) && errorMessage == old(errorMessage)
        && decryptedBlob == old(decryptedBlob) && decryptedFileName == old(decryptedFileName)
      ensures started ==>
        var r := Crypto.OpenPackage(p, old(encryptedFile).value.bytes, old(decryptionCode));
        && (r.Ok? ==> state == Success && decryptedBlob == Some(r.value.file)
                      && decryptedFileName == r.value.metadata.fileName && errorMessage == "")
        && (r.Err? ==> state == Error && errorMessage == FailureMessage
                       && decryptedBlob == old(decryptedBlob) && decryptedFileName == old(decryptedFileName))
      ensures encryptedFile == old(encryptedFile) && decryptionCode == old(decryptionCode)
    {
      if DecryptEnabled() {
        started := HandleDecrypt(p);
      } else {
        started := false;
      }
    }

    /** `handleDownload()`: nothing unless a blob and a non-empty file name are both present.
        Creating the object URL and clicking the link are left out. */
    method HandleDownload() returns (d: Option<Download>)
      ensures d.Some? <==> decryptedBlob.Some? && decryptedFileName != ""
      ensures d.Some? ==> d.value == Download(decryptedBlob.value, decryptedFileName)
    {
      if decryptedBlob.None? || decryptedFileName == "" {
        return None;
      }
      d := Some(Download(decryptedBlob.value, decryptedFileName));
    }

    /** `handleReset()`: all six cells back to their initial values. */
    method HandleReset()
      modifies this
      ensures Valid() && IsInitial()
    {
      encryptedFile := None;
      decryptionCode := "";
      state := Idle;
      decryptedBlob := None;
      decryptedFileName := "";
      errorMessage := "";
    }
  }

  /** A whole session on the page: a package made from `file` under a generated six-digit
      code is dropped, the code typed and the decrypt button clicked; the page ends in
      "success" showing the original file name, and its download holds the original bytes. */
  method DecryptGeneratedPackage(p: Crypto.Primitives, file: Crypto.File, packageName: string, draw: real,
                                 salt: seq<Bytes.byte>, iv: seq<Bytes.byte>, now: string)
    returns (state: DecryptionState, download: Option<Download>)
    requires Crypto.Sound(p)
    requires 0.0 <= draw < 1.0
    requires |salt| == Crypto.SaltLength && |iv| == Crypto.IvLength
    requires |p.encodeHeader(Crypto.HeaderFor(file, now))| < Bytes.U32Modulus
    requires EndsWith(packageName, PackageSuffix)
    ensures state == Success
    ensures file.name != "" ==> download == Some(Download(Crypto.Blob(file.bytes, Crypto.BlobType(file.mimeType)), file.name))
    ensures file.name == "" ==> download == None
  {
    var code := Crypto.GenerateDecryptionCode(draw);
    var package := Crypto.CreateEncryptedPackage(p, file, code, salt, iv, now);
    Crypto.OpenCreatedPackage(p, file, code, salt, iv, now);
    var page := new Page();
    var rejected := page.HandleDrop(Some(Crypto.File(packageName, package.mimeType, package.bytes)));
    page.SetDecryptionCode(code);
    var started := page.ClickDecrypt(p);
    state := page.state;
    download := page.HandleDownload();
  }
}
