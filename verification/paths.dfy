/** `System.IO.Path.GetExtension` on Windows: scan backwards from the end of the path;
    the extension starts at the first '.' met before any directory or volume separator,
    and a path ending in '.' has no extension.
 */
module Paths {

  /** The directory, alternative directory and volume separators of Windows paths. */
  predicate IsSeparator(c: char) {
    c == '\\' || c == '/' || c == ':'
  }

  /** The characters at which the backward scan stops. */
  predicate IsStop(c: char) {
    c == '.' || IsSeparator(c)
  }

  /** The characters a Windows path may not contain: `"`, `<`, `>`, `|` and the control
      characters below U+0020. `Path.Combine` rejects a path holding one. */
  predicate IsInvalidPathChar(c: char) {
    c == '"' || c == '<' || c == '>' || c == '|' || c < ' '
  }

  predicate HasInvalidPathChar(path: string) {
    exists i :: 0 <= i < |path| && IsInvalidPathChar(path[i])
  }

  /** The message of the ArgumentException thrown for an invalid path character. */
  const InvalidPathCharsMessage := "Illegal characters in path."

  /** Appending text without invalid characters neither adds nor removes one. */
  lemma InvalidPathCharOfAppended(stem: string, tail: string)
    requires !HasInvalidPathChar(tail)
    ensures HasInvalidPathChar(stem + tail) <==> HasInvalidPathChar(stem)
  {
    var path := stem + tail;
    if HasInvalidPathChar(path) {
      var i :| 0 <= i < |path| && IsInvalidPathChar(path[i]);
      if |stem| <= i {
        assert false;
      }
      assert stem[i] == path[i];
    }
    if HasInvalidPathChar(stem) {
      var i :| 0 <= i < |stem| && IsInvalidPathChar(stem[i]);
      assert path[i] == stem[i];
    }
  }

  /** A well-formed extension: a dot followed by at least one character, none of
      which is a dot or a separator. */
  predicate IsExtension(ext: string) {
    |ext| >= 2 && ext[0] == '.' && forall j :: 1 <= j < |ext| ==> !IsStop(ext[j])
  }

  /** Index of the last stop character among the first `n` characters, or -1. */
  function LastStop(path: string, n: nat): (i: int)
    requires n <= |path|
    ensures -1 <= i < n
    ensures 0 <= i ==> IsStop(path[i])
    ensures forall j :: i < j < n ==> !IsStop(path[j])
  {
    if n == 0 then -1
    else if IsStop(path[n - 1]) then n - 1
    else LastStop(path, n - 1)
  }

  /** The extension of `path`, including its leading dot, or "" when it has none. */
  function GetExtension(path: string): (ext: string)
    ensures ext == "" || IsExtension(ext)
    ensures |ext| <= |path| && path[|path| - |ext|..] == ext
  {
    var i := LastStop(path, |path|);
    if 0 <= i && path[i] == '.' && i != |path| - 1 then path[i..] else ""
  }

  /** Appending a well-formed extension to any stem yields a path with exactly that
      extension; together with the contract of `GetExtension`, a non-empty result is
      the one extension-shaped suffix of the path. */
  lemma ExtensionOfAppended(stem: string, ext: string)
    requires IsExtension(ext)
    ensures GetExtension(stem + ext) == ext
  {
    var path := stem + ext;
    var i := LastStop(path, |path|);
    assert path[|stem|] == '.';
    assert forall j :: |stem| < j < |path| ==> path[j] == ext[j - |stem|];
    assert i == |stem|;
    assert path[i..] == ext;
  }

  /** A path has no extension exactly when it has no extension-shaped suffix. */
  lemma NoExtensionMeansNoSuffix(path: string, k: nat)
    requires k <= |path|
    requires GetExtension(path) == ""
    ensures !IsExtension(path[k..])
  {
    if IsExtension(path[k..]) {
      assert path == path[..k] + path[k..];
      ExtensionOfAppended(path[..k], path[k..]);
    }
  }
}
