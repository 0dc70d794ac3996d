/** The extension allow-lists of the upload helpers (`SaveFile` for seminar
    papers, `SaveImage` for profile pictures) and the path they store. The
    bytes written to disk are not modelled; a stored path is built from the
    sub-folder, a GUID and the lower-cased extension. */
module Uploads {
  import opened Seqs
  import opened Text
  import opened Models

  const SeminarExtensions: seq<string> := [".doc", ".docx", ".pdf"]
  const ImageExtensions: seq<string> := [".jpg", ".jpeg", ".png", ".webp"]

  /** `Guid.NewGuid().ToString()` is 36 characters long: 32 hex digits and four hyphens. */
  const GuidLength: nat := 36

  const SeminarError: string := "Seminar file must be .doc, .docx or .pdf"
  const ImageError: string := "Only image files (.jpg, .jpeg, .png, .webp) are allowed."

  /** `Path.GetExtension(fileName).ToLowerInvariant()`: empty, or a proper
      extension with its letters lower-cased. */
  function LowerExtension(fileName: string): (r: string)
    ensures r == [] || IsExtension(r)
    ensures |r| == |GetExtension(fileName)|
  {
    var e := GetExtension(fileName);
    var r := ToLowerInvariant(e);
    assert e != [] ==> IsExtension(r) by {
      if e != [] {
        forall i | 1 <= i < |r| ensures r[i] != '.' && !IsDirectorySeparator(r[i]) {
          assert r[i] == ToLowerChar(e[i]);
        }
      }
    }
    r
  }

  /** A file was sent: present and not empty (`file != null && file.Length > 0`). */
  predicate HasFile(file: Option<Upload>) {
    file.Some? && file.value.length > 0
  }

  /** A file the seminar upload accepts. */
  predicate SeminarAllowed(fileName: string) {
    LowerExtension(fileName) in SeminarExtensions
  }

  /** A file the profile-image upload accepts. */
  predicate ImageAllowed(fileName: string) {
    LowerExtension(fileName) in ImageExtensions
  }

  /** `/uploads/{subfolder}/`: the web folder of a sub-folder's uploads. */
  function UploadFolder(subfolder: string): string {
    "/uploads/" + subfolder + "/"
  }

  /** `/uploads/{subfolder}/{guid}{ext}`: the path stored for a saved upload.
      It lies in the sub-folder and keeps the upload's lower-cased extension. */
  function StoredPath(subfolder: string, guid: string, fileName: string): (r: string)
    ensures UploadFolder(subfolder) <= r
    ensures LowerExtension(fileName) != [] ==> GetExtension(r) == LowerExtension(fileName)
  {
    var folder := UploadFolder(subfolder);
    var ext := LowerExtension(fileName);
    PrefixOfAppended(folder, guid + ext);
    assert ext != [] ==> GetExtension(folder + (guid + ext)) == ext by {
      if ext != [] {
        ExtensionAfterName(folder, guid, ext);
      }
    }
    folder + (guid + ext)
  }

  /** A stored seminar paper's path is at most 59 characters long: the 18
      characters of `/uploads/seminars/`, the GUID, and an allowed extension
      of at most five characters. */
  lemma SeminarPathLength(guid: string, fileName: string)
    requires |guid| == GuidLength && SeminarAllowed(fileName)
    ensures |StoredPath("seminars", guid, fileName)| <= 59
  {
    var ext := LowerExtension(fileName);
    assert |ext| <= 5;
    assert |UploadFolder("seminars")| == 18;
  }

  /** `SaveImage`: the stored path of an accepted picture, or the
      `InvalidOperationException` it raises for any other extension. */
  function SaveImage(file: Upload, subfolder: string, guid: string): (r: Result<string>)
    ensures r.Success? <==> ImageAllowed(file.fileName)
    ensures r.Failure? ==> r.error == ImageError
    ensures r.Success? ==> UploadFolder(subfolder) <= r.value && GetExtension(r.value) in ImageExtensions
  {
    if ImageAllowed(file.fileName) then Success(StoredPath(subfolder, guid, file.fileName))
    else Failure(ImageError)
  }

  /** A profile picture was sent with an extension `SaveImage` refuses. */
  predicate ImageRefused(image: Option<Upload>) {
    HasFile(image) && !ImageAllowed(image.value.fileName)
  }

  /** The picture path an edit stores: the stored one, unless a picture was sent,
      which replaces it. */
  function KeptImagePath(stored: Option<string>, image: Option<Upload>, subfolder: string, guid: string): (r: Option<string>)
    requires !ImageRefused(image)
    ensures !HasFile(image) ==> r == stored
    ensures HasFile(image) ==> r.Some? && UploadFolder(subfolder) <= r.value && GetExtension(r.value) in ImageExtensions
  {
    if HasFile(image) then Some(SaveImage(image.value, subfolder, guid).value) else stored
  }

  /** The extension the upload helpers see in `stem + ext` is `ext`, lower-cased. */
  lemma LowerExtensionOfAppended(stem: string, ext: string)
    requires IsExtension(ext)
    ensures LowerExtension(stem + ext) == ToLowerInvariant(ext)
  {
    ExtensionOfAppended(stem, ext);
  }

  /** The check ignores the case of the extension and looks only at the text
      after the last dot, whatever the file is called. */
  lemma ImageAllowListAccepts(stem: string)
    ensures ImageAllowed(stem + ".PNG") && ImageAllowed(stem + ".jpeg")
  {
    LowerExtensionOfAppended(stem, ".PNG");
    assert ToLowerInvariant(".PNG") == ".png";
    LowerExtensionOfAppended(stem, ".jpeg");
    assert ToLowerInvariant(".jpeg") == ".jpeg";
  }

  /** Other extensions are refused, also after an allowed one, and so is a
      name without a dot. */
  lemma ImageAllowListRejects(stem: string, bare: string)
    requires forall i :: 0 <= i < |bare| ==> bare[i] != '.'
    ensures !ImageAllowed(stem + ".gif") && !ImageAllowed(stem + ".png" + ".exe") && !ImageAllowed(bare)
  {
    LowerExtensionOfAppended(stem, ".gif");
    assert ToLowerInvariant(".gif") == ".gif";
    LowerExtensionOfAppended(stem + ".png", ".exe");
    assert ToLowerInvariant(".exe") == ".exe";
    NoDotNoExtension(bare, |bare|);
  }

  lemma SeminarAllowListExamples(stem: string)
    ensures SeminarAllowed(stem + ".Pdf") && SeminarAllowed(stem + ".docx")
    ensures !SeminarAllowed(stem + ".txt") && !SeminarAllowed(stem + ".")
  {
    LowerExtensionOfAppended(stem, ".Pdf");
    assert ToLowerInvariant(".Pdf") == ".pdf";
    LowerExtensionOfAppended(stem, ".docx");
    assert ToLowerInvariant(".docx") == ".docx";
    LowerExtensionOfAppended(stem, ".txt");
    assert ToLowerInvariant(".txt") == ".txt";
    assert (stem + ".")[|stem|] == '.';
  }
}
