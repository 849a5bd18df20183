/**
 * The name offered for the downloaded PNG: the uploaded file's name with a
 * trailing extension (a dot followed by one or more characters that are
 * neither '/' nor '.', up to the end) removed and ".png" appended, or
 * "converted.png" when there is no file or its name is empty.
 */
module DownloadName {

  datatype Option<T> = None | Some(value: T)

  const PngSuffix: string := ".png"
  const Fallback: string := "converted.png"

  /** No character of `e` is '/' or '.'. */
  predicate NoSeparator(e: string) {
    forall k :: 0 <= k < |e| ==> e[k] != '/' && e[k] != '.'
  }

  /** One or more characters, none of them '/' or '.'. */
  predicate IsExtension(e: string) {
    |e| > 0 && NoSeparator(e)
  }

  /** The pattern `\.[^/.]+$` matches `name` starting at index i. */
  predicate MatchesAt(name: string, i: nat) {
    i < |name| && name[i] == '.' && IsExtension(name[i + 1..])
  }

  /**
   * The scan for the pattern's dot, from index j - 1 down, given that
   * name[j..] has no '/' and no '.': the first '.' met is the only candidate,
   * and only if something follows it; a '/' met first rules out a match.
   */
  function ExtensionDot(name: string, j: nat): (d: Option<nat>)
    requires j <= |name|
    ensures d.Some? ==> d.value < j
  {
    if j == 0 then None
    else if name[j - 1] == '/' then None
    else if name[j - 1] == '.' then (if j < |name| then Some(j - 1) else None)
    else ExtensionDot(name, j - 1)
  }

  /** The scan finds exactly the indices where the pattern matches. */
  lemma {:induction false} ExtensionDotMatches(name: string, j: nat, i: nat)
    requires j <= |name| && NoSeparator(name[j..])
    ensures ExtensionDot(name, j) == Some(i) <==> (i < j && MatchesAt(name, i))
    decreases j
  {
    if j > 0 {
      var c := name[j - 1];
      // Every candidate before j - 1 has name[j - 1] in its extension.
      assert i < j - 1 ==> name[i + 1..][j - 1 - (i + 1)] == c;
      if c != '/' && c != '.' {
        assert name[j - 1..] == [c] + name[j..];
        ExtensionDotMatches(name, j - 1, i);
      } else if c == '.' && j < |name| {
        assert name[j..] == name[j - 1 + 1..];
      }
    }
  }

  /** At most one index matches: a later match's dot would sit inside an earlier one's extension. */
  lemma MatchUnique(name: string, i: nat, i': nat)
    requires MatchesAt(name, i) && MatchesAt(name, i')
    ensures i == i'
  {
  }

  /**
   * `name.replace(/\.[^/.]+$/, '')`: the name without its extension, or the
   * name itself when it has none.
   */
  function StripExtension(name: string): (stem: string)
    ensures stem <= name
    ensures stem == name || MatchesAt(name, |stem|)
  {
    assert NoSeparator(name[|name|..]);
    match ExtensionDot(name, |name|)
    case Some(i) => ExtensionDotMatches(name, |name|, i); name[..i]
    case None => name
  }

  /** A name without an extension is left as it is. */
  lemma StripWithoutExtension(name: string)
    requires forall i :: 0 <= i < |name| ==> !MatchesAt(name, i)
    ensures StripExtension(name) == name
  {
  }

  /** A stem followed by a dot and an extension loses exactly the dot and the extension. */
  lemma StripWithExtension(stem: string, ext: string)
    requires IsExtension(ext)
    ensures StripExtension(stem + "." + ext) == stem
  {
    var name := stem + "." + ext;
    assert name[|stem| + 1..] == ext;
    assert MatchesAt(name, |stem|);
    var r := StripExtension(name);
    if r == name {
      assert NoSeparator(name[|name|..]);
      ExtensionDotMatches(name, |name|, |stem|);
    } else {
      MatchUnique(name, |r|, |stem|);
      assert r == name[..|stem|];
    }
  }

  /**
   * The download name for the uploaded file's name, if there is a file:
   * `imageFile && imageFile.name ? stripped + '.png' : 'converted.png'`.
   * It always ends in ".png"; for a non-empty name, what precedes ".png" is
   * the name itself or the name cut just before its extension's dot.
   */
  function DownloadFileName(uploaded: Option<string>): (fileName: string)
    ensures |fileName| >= |PngSuffix| && fileName[|fileName| - |PngSuffix|..] == PngSuffix
    ensures uploaded == None || uploaded == Some("") ==> fileName == Fallback
    ensures uploaded.Some? && uploaded.value != "" ==>
      var stem := fileName[..|fileName| - |PngSuffix|];
      stem <= uploaded.value && (stem == uploaded.value || MatchesAt(uploaded.value, |stem|))
  {
    if uploaded.Some? && uploaded.value != "" then
      var stem := StripExtension(uploaded.value);
      var fileName := stem + PngSuffix;
      assert fileName[..|fileName| - |PngSuffix|] == stem;
      assert fileName[|fileName| - |PngSuffix|..] == PngSuffix;
      fileName
    else Fallback
  }

  /** An uploaded name with an extension gets its stem and ".png". */
  lemma DownloadNameWithExtension(stem: string, ext: string)
    requires IsExtension(ext)
    ensures DownloadFileName(Some(stem + "." + ext)) == stem + PngSuffix
  {
    StripWithExtension(stem, ext);
  }

  /** A non-empty uploaded name without an extension gets ".png" appended. */
  lemma DownloadNameWithoutExtension(name: string)
    requires name != "" && forall i :: 0 <= i < |name| ==> !MatchesAt(name, i)
    ensures DownloadFileName(Some(name)) == name + PngSuffix
  {
  }

  /** No file, or a file whose name is empty, gives the fallback name. */
  lemma DownloadNameFallback()
    ensures DownloadFileName(None) == Fallback && DownloadFileName(Some("")) == Fallback
  {
  }

  /** Only the last extension goes. */
  lemma ExampleLastExtensionOnly()
    ensures DownloadFileName(Some("photo.jpeg")) == "photo.png"
    ensures DownloadFileName(Some("archive.tar.gz")) == "archive.tar.png"
  {
    assert "photo.jpeg" == "photo" + "." + "jpeg";
    DownloadNameWithExtension("photo", "jpeg");
    assert "archive.tar.gz" == "archive.tar" + "." + "gz";
    DownloadNameWithExtension("archive.tar", "gz");
  }

  /** A name that is all extension leaves only ".png". */
  lemma ExampleDotFile()
    ensures DownloadFileName(Some(".bashrc")) == ".png"
  {
    assert ".bashrc" == "" + "." + "bashrc";
    DownloadNameWithExtension("", "bashrc");
  }

  /** A trailing dot is no extension. */
  lemma ExampleTrailingDot()
    ensures DownloadFileName(Some("notes.")) == "notes..png"
  {
  }

  /** A dot before a '/' is no extension. */
  lemma ExampleDotBeforeSlash()
    ensures DownloadFileName(Some("v1.0/readme")) == "v1.0/readme.png"
  {
    var name := "v1.0/readme";
    forall i | 0 <= i < |name| ensures !MatchesAt(name, i) {
      if i < 4 {
        assert name[i + 1..][4 - (i + 1)] == '/';
      }
    }
    DownloadNameWithoutExtension(name);
  }
}
