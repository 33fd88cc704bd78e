/**
 * The file item record and the pure display rules of a file card
 * (src/components/files/FileCard.tsx): which icon a MIME type gets, which
 * shield a security level gets, and when the security badge is shown.
 */
module FileCard {
  import opened Wrappers
  import opened Text

  datatype SecurityLevel = Standard | High | Maximum

  /** A `FileItem`. Optional string fields are `Option`s; the optional `starred` flag is a bool,
      absent being false, since every use reads it by truthiness. Dates, thumbnails and blobs
      are left out. */
  datatype FileItem = FileItem(
    id: string,
    name: string,
    mimeType: string,
    size: nat,
    starred: bool,
    securityLevel: Option<SecurityLevel>,
    encryptionKey: Option<string>,
    secondaryEncryptionKey: Option<string>,
    recipientEmail: Option<string>)

  /** The icon families of `getFileIcon`. */
  datatype FileIcon = ImageIcon | VideoIcon | AudioIcon | ArchiveIcon | CodeIcon | DocumentIcon | GenericIcon

  predicate IsArchiveType(t: string) {
    Includes(t, "zip") || Includes(t, "rar") || Includes(t, "tar")
  }

  predicate IsCodeType(t: string) {
    Includes(t, "javascript") || Includes(t, "typescript") || Includes(t, "json")
      || Includes(t, "html") || Includes(t, "css")
  }

  predicate IsDocumentType(t: string) {
    Includes(t, "pdf") || Includes(t, "document") || Includes(t, "text")
  }

  /** `getFileIcon(type)`: the first test that matches, in source order. */
  function GetFileIcon(t: string): FileIcon {
    if StartsWith(t, "image/") then ImageIcon
    else if StartsWith(t, "video/") then VideoIcon
    else if StartsWith(t, "audio/") then AudioIcon
    else if IsArchiveType(t) then ArchiveIcon
    else if IsCodeType(t) then CodeIcon
    else if IsDocumentType(t) then DocumentIcon
    else GenericIcon
  }

  /** The media prefixes are tested first: a media type never gets another icon, whatever else
      its name contains. */
  lemma MediaPrefixWins(rest: string)
    ensures GetFileIcon("image/" + rest) == ImageIcon
    ensures GetFileIcon("video/" + rest) == VideoIcon
    ensures GetFileIcon("audio/" + rest) == AudioIcon
  {
    assert ("image/" + rest)[..6] == "image/";
    assert ("video/" + rest)[..6] == "video/";
    assert ("audio/" + rest)[..6] == "audio/";
  }

  /** Each icon is given exactly when its test is the first one to match. */
  lemma FileIconIff(t: string)
    ensures GetFileIcon(t) == ArchiveIcon
      <==> (!StartsWith(t, "image/") && !StartsWith(t, "video/") && !StartsWith(t, "audio/") && IsArchiveType(t))
    ensures GetFileIcon(t) == CodeIcon
      <==> (!StartsWith(t, "image/") && !StartsWith(t, "video/") && !StartsWith(t, "audio/")
            && !IsArchiveType(t) && IsCodeType(t))
    ensures GetFileIcon(t) == DocumentIcon
      <==> (!StartsWith(t, "image/") && !StartsWith(t, "video/") && !StartsWith(t, "audio/")
            && !IsArchiveType(t) && !IsCodeType(t) && IsDocumentType(t))
    ensures GetFileIcon(t) == GenericIcon
      <==> (!StartsWith(t, "image/") && !StartsWith(t, "video/") && !StartsWith(t, "audio/")
            && !IsArchiveType(t) && !IsCodeType(t) && !IsDocumentType(t))
  {
  }

  /** A type under none of the media prefixes: its first letter is none of i, v and a. */
  lemma NoMediaPrefix(t: string)
    requires |t| > 0 && t[0] != 'i' && t[0] != 'v' && t[0] != 'a'
    ensures !StartsWith(t, "image/") && !StartsWith(t, "video/") && !StartsWith(t, "audio/")
  {
    if |t| >= 6 {
      assert t[..6][0] == t[0];
    }
  }

  /** The code test runs before the document test: "text/html" contains "text", yet it is code. */
  lemma HtmlIsCode()
    ensures IsDocumentType("text/html") && GetFileIcon("text/html") == CodeIcon
  {
    var t := "text/html";
    assert OccursAt(t, "text", 0);
    assert OccursAt(t, "html", 5);
    NoMediaPrefix(t);
    NoArchiveKeyword(t);
  }

  /** "text/plain" matches no earlier test and is a document. */
  lemma PlainTextIsDocument()
    ensures GetFileIcon("text/plain") == DocumentIcon
  {
    var t := "text/plain";
    assert OccursAt(t, "text", 0);
    NoMediaPrefix(t);
    NoArchiveOrCodeKeyword(t);
  }

  /** No archive keyword occurs in a type without the letters z and r. */
  lemma NoArchiveKeyword(t: string)
    requires 'z' !in t && 'r' !in t
    ensures !IsArchiveType(t)
  {
    if Includes(t, "zip") { IncludesChars(t, "zip", 0); }
    if Includes(t, "rar") { IncludesChars(t, "rar", 0); }
    if Includes(t, "tar") { IncludesChars(t, "tar", 2); }
  }

  /** No archive or code keyword occurs in a type that lacks the letters z, r, j, y, h and c
      ("text/plain" is one): each keyword holds one of them. */
  lemma NoArchiveOrCodeKeyword(t: string)
    requires 'z' !in t && 'r' !in t && 'j' !in t && 'y' !in t && 'h' !in t && 'c' !in t
    ensures !IsArchiveType(t) && !IsCodeType(t)
  {
    NoArchiveKeyword(t);
    if Includes(t, "javascript") { IncludesChars(t, "javascript", 0); }
    if Includes(t, "typescript") { IncludesChars(t, "typescript", 1); }
    if Includes(t, "json") { IncludesChars(t, "json", 0); }
    if Includes(t, "html") { IncludesChars(t, "html", 0); }
    if Includes(t, "css") { IncludesChars(t, "css", 0); }
  }

  /** The shields of `getSecurityIcon`. */
  datatype SecurityIcon = ShieldAlert | ShieldCheck | Shield

  /** `getSecurityIcon(level)`: a switch on the level, the standard shield for everything else,
      an absent level included. */
  function GetSecurityIcon(level: Option<SecurityLevel>): SecurityIcon {
    match level
    case Some(Maximum) => ShieldAlert
    case Some(High) => ShieldCheck
    case _ => Shield
  }

  /** Whether the card shows the security badge: the level is set and is not "standard". */
  predicate ShowsSecurityBadge(level: Option<SecurityLevel>) {
    level.Some? && level.value != Standard
  }

  /** The badge is shown exactly when its icon is not the plain shield, so a standard or
      absent level never shows one. */
  lemma BadgeIffDistinctShield(level: Option<SecurityLevel>)
    ensures ShowsSecurityBadge(level) <==> GetSecurityIcon(level) != Shield
    ensures GetSecurityIcon(level) == ShieldAlert <==> level == Some(Maximum)
    ensures GetSecurityIcon(level) == ShieldCheck <==> level == Some(High)
  {
  }
}
