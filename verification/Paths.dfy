/** Relative paths as text and the places they lead to: `PathBuf::push`, and what the file
    system makes of the result. */
module Paths {

  predicate NoSlash(s: string) {
    forall k :: 0 <= k < |s| ==> s[k] != '/'
  }

  /** Nothing follows the last slash, if there is one. */
  predicate Ends(path: string) {
    path == "" || path[|path| - 1] == '/'
  }

  /** `PathBuf::push` of a component, which has no slash: one is put before it unless the path
      is empty or ends in one. */
  function Push(path: string, component: string): string {
    if Ends(path) then path + component else path + "/" + component
  }

  /** The directories a path goes through, and the name it ends in; a path that is empty or ends
      in a slash names no file. Empty components lead nowhere else. */
  datatype Place = Place(dirs: seq<string>, file: string) {
    function Full(): seq<string> {
      if file == "" then dirs else dirs + [file]
    }

    predicate NamesFile() {
      file != ""
    }

    /** The other place is one of the directories on the way to this one. */
    predicate Inside(other: Place) {
      other.Full() <= dirs
    }
  }

  function PlaceOf(path: string): Place {
    if path == "" then Place([], "")
    else
      var before, last := PlaceOf(path[..|path| - 1]), path[|path| - 1];
      if last == '/' then Place(before.Full(), "") else Place(before.dirs, before.file + [last])
  }

  lemma {:induction false} PlaceExtends(path: string, c: string)
    requires NoSlash(c)
    ensures PlaceOf(path + c) == Place(PlaceOf(path).dirs, PlaceOf(path).file + c)
  {
    var p := PlaceOf(path);
    if c == "" {
      assert path + c == path && p.file + c == p.file;
    } else {
      var init, last := c[..|c| - 1], c[|c| - 1];
      PlaceExtends(path, init);
      assert (path + c)[..|path + c| - 1] == path + init;
      assert p.file + init + [last] == p.file + c;
    }
  }

  /** A path names a file exactly if something follows its last slash. */
  lemma {:induction false} NamesFileExactly(path: string)
    ensures PlaceOf(path).NamesFile() <==> !Ends(path)
  {
    hide Place.Full;
    if path != "" {
      NamesFileExactly(path[..|path| - 1]);
    }
  }

  /** A pushed component is the name behind all that was there, whatever the text looks like. */
  lemma PushPlace(path: string, c: string)
    requires NoSlash(c)
    ensures PlaceOf(Push(path, c)) == Place(PlaceOf(path).Full(), c)
  {
    hide PlaceOf, Ends;
    NamesFileExactly(path);
    if Ends(path) {
      PlaceExtends(path, c);
      assert "" + c == c;
    } else {
      SlashPlace(path);
      PlaceExtends(path + "/", c);
      assert "" + c == c;
    }
  }

  lemma SlashPlace(path: string)
    ensures PlaceOf(path + "/") == Place(PlaceOf(path).Full(), "")
  {
    hide Place.Full;
    assert (path + "/")[..|path + "/"| - 1] == path;
  }

  /** Two files can be in one file system: neither is the other, nor a directory of the other. */
  predicate Compatible(a: Place, b: Place) {
    a.Full() != b.Full() && !a.Inside(b) && !b.Inside(a)
  }
}
