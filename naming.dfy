/** How backend/server.py derives object keys: on upload from the original
    file name and an optional custom name, on rename from the old key and a
    new base name. Both keep "the extension", which the code takes to be
    the last '.'-separated piece of the name. */
module Naming {
  import opened Results
  import Strings

  /** `name.split('.')[-1]`: the text after the last dot, or the whole name
      when it has no dot. */
  function Extension(name: string): (ext: string)
    ensures '.' !in ext
    ensures |ext| <= |name| && name[|name| - |ext|..] == ext
    ensures |ext| == |name| || name[|name| - |ext| - 1] == '.'
  {
    Strings.LastPart(name, '.')
  }

  /** `base + "." + ext` carries the extension `ext`, whatever `base` is. */
  lemma ExtensionOfDotted(base: string, ext: string)
    requires '.' !in ext
    ensures Extension(base + "." + ext) == ext
  {
    Strings.LastPartAfterSeparator(base, ext, '.');
  }

  /** Python truthiness of the optional `customName` form field. */
  predicate HasCustomName(customName: Option<string>) {
    customName.Some? && customName.value != ""
  }

  /** The key an upload is stored under: the custom name with the original
      file's extension, or the original file name. */
  function UploadKey(fileName: string, customName: Option<string>): (key: string)
    ensures !HasCustomName(customName) ==> key == fileName
    ensures HasCustomName(customName) ==>
      var base := customName.value;
      && |key| > |base|
      && key[..|base| + 1] == base + "."
      && Extension(key) == Extension(fileName)
      && key[|base| + 1..] == Extension(fileName)
  {
    if HasCustomName(customName) then
      ExtensionOfDotted(customName.value, Extension(fileName));
      customName.value + "." + Extension(fileName)
    else fileName
  }

  /** The key a rename moves an object to: the new base name with the old
      key's extension. */
  function RenameKey(oldName: string, newBase: string): (key: string)
    ensures |key| > |newBase| && key[..|newBase| + 1] == newBase + "."
    ensures Extension(key) == Extension(oldName)
    ensures key[|newBase| + 1..] == Extension(oldName)
  {
    ExtensionOfDotted(newBase, Extension(oldName));
    newBase + "." + Extension(oldName)
  }

  /** Renaming twice is renaming once to the second base name: the
      extension survives every rename. */
  lemma {:induction false} RenameKeyTwice(oldName: string, b1: string, b2: string)
    ensures RenameKey(RenameKey(oldName, b1), b2) == RenameKey(oldName, b2)
  {
    ExtensionOfDotted(b1, Extension(oldName));
  }

  /** A custom name on a file without a dot takes the whole file name as
      its extension. */
  lemma UploadKeyNoDot()
    ensures UploadKey("README", Some("x")) == "x.README"
  {
    Strings.LastPartOfPiece("README", '.');
  }

  /** An absent or empty custom name leaves the file name unchanged. */
  lemma UploadKeyNoCustomName()
    ensures UploadKey("report.pdf", None) == "report.pdf"
    ensures UploadKey("report.pdf", Some("")) == "report.pdf"
  {
  }

  /** Only the last dot-separated piece is kept. */
  lemma UploadKeyLastPieceOnly()
    ensures UploadKey("archive.tar.gz", Some("backup")) == "backup.gz"
  {
    UploadKeyOfDotted("archive.tar", "gz", "backup");
    assert "archive.tar" + "." + "gz" == "archive.tar.gz";
    assert "backup" + "." + "gz" == "backup.gz";
  }

  /** A custom name replaces everything before the last dot. */
  lemma UploadKeyOfDotted(stem: string, ext: string, base: string)
    requires '.' !in ext && base != ""
    ensures UploadKey(stem + "." + ext, Some(base)) == base + "." + ext
  {
    ExtensionOfDotted(stem, ext);
  }

  lemma RenameKeyExamples()
    ensures RenameKey("a.tar.gz", "b") == "b.gz"
    ensures RenameKey("a.txt", "b") == "b.txt"
    ensures RenameKey("b.txt", "b") == "b.txt"
  {
    ExtensionOfDotted("a.tar", "gz");
    assert "a.tar" + "." + "gz" == "a.tar.gz";
    ExtensionOfDotted("a", "txt");
    assert "a" + "." + "txt" == "a.txt";
    ExtensionOfDotted("b", "txt");
    assert "b" + "." + "txt" == "b.txt";
  }
}
