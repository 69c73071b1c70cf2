/** Path handling of the UF2 commands: uf2_basename, uf2_mkdir_for (src/uf2_helper.c) and
    uf2_map (src/uf2_unpack.c). Names are byte strings without NUL. */
module Uf2Names {
  import opened Bytes
  import opened Numbers

  const SLASH: Byte := 47
  const BACKSLASH: Byte := 92
  const DOT: seq<Byte> := [46]
  const DOT_DOT: seq<Byte> := [46, 46]
  const REALNAME_SIZE := 256

  // ----- uf2_basename -----

  predicate IsSeparator(c: Byte, backslash: bool) { c == SLASH || (backslash && c == BACKSLASH) }

  predicate Plain(s: seq<Byte>, backslash: bool) { forall c :: c in s ==> !IsSeparator(c, backslash) }

  function BaseStart(name: seq<Byte>, backslash: bool): (n: nat)
    ensures n <= |name| && Plain(name[n..], backslash)
    ensures n > 0 ==> IsSeparator(name[n - 1], backslash)
  {
    if name == [] then 0
    else if IsSeparator(name[|name| - 1], backslash) then |name|
    else
      var n := BaseStart(name[..|name| - 1], backslash);
      assert name[n..] == name[..|name| - 1][n..] + [name[|name| - 1]];
      n
  }

  function Basename(name: seq<Byte>, backslash: bool): seq<Byte> {
    name[BaseStart(name, backslash)..]
  }

  /** The last component is determined by having no separator and following one. */
  lemma BasenameUnique(name: seq<Byte>, backslash: bool, n: nat)
    requires n <= |name| && Plain(name[n..], backslash) && (n > 0 ==> IsSeparator(name[n - 1], backslash))
    ensures Basename(name, backslash) == name[n..]
  {
    var m := BaseStart(name, backslash);
    if m != n {
      assert false;
    }
  }

  /** What follows the last slash, or the last slash or backslash, of a name. */
  predicate IsTail(part: seq<Byte>, name: seq<Byte>, backslash: bool) {
    && |part| <= |name| && name[|name| - |part|..] == part && 47 !in part && (backslash ==> 92 !in part)
    && (|part| < |name| ==> var c := name[|name| - |part| - 1]; c == 47 || (backslash && c == 92))
  }

  lemma BasenameIsTail(name: seq<Byte>, backslash: bool)
    ensures IsTail(Basename(name, backslash), name, backslash)
  {
    hide BaseStart;
    var base := Basename(name, backslash);
    assert forall c :: c in base ==> !IsSeparator(c, backslash);
    assert IsSeparator(47, backslash) && (backslash ==> IsSeparator(92, backslash));
  }

  /** Scans backwards for the last separator; the bound is tested before the character. */
  method uf2_basename(fullname: seq<Byte>, backslash: bool) returns (base: seq<Byte>)
    ensures base == Basename(fullname, backslash)
    ensures IsTail(base, fullname, backslash)
  {
    var pos: int := |fullname|;
    while pos >= 0 && !(pos < |fullname| && IsSeparator(fullname[pos], backslash))
      invariant -1 <= pos <= |fullname|
      invariant forall i :: pos < i < |fullname| ==> !IsSeparator(fullname[i], backslash)
    {
      pos := pos - 1;
    }
    BasenameUnique(fullname, backslash, pos + 1);
    base := fullname[pos + 1..];
    hide Basename, IsTail;
    BasenameIsTail(fullname, backslash);
  }

  // ----- uf2_map -----

  function Folder(filename: seq<Byte>, usePaths: bool): seq<Byte> {
    if !usePaths then DOT
    else if FirstPart(filename) == DOT_DOT then DOT
    else FirstPart(filename)
  }

  function FirstPart(name: seq<Byte>): (s: seq<Byte>)
    ensures |s| <= |name| && s == name[..|s|] && SLASH !in s && (|s| < |name| ==> name[|s|] == SLASH)
  {
    if name == [] || name[0] == SLASH then [] else [name[0]] + FirstPart(name[1..])
  }

  /** The destination before snprintf cuts it to the buffer. */
  function LongPath(dstdir: seq<Byte>, filename: seq<Byte>, usePaths: bool): seq<Byte> {
    dstdir + [SLASH] + Folder(filename, usePaths) + [SLASH] + Basename(filename, false)
  }

  function MapPath(dstdir: seq<Byte>, filename: seq<Byte>, usePaths: bool): (path: seq<Byte>)
    ensures |path| < REALNAME_SIZE
  {
    var s := LongPath(dstdir, filename, usePaths);
    s[..Min(|s|, REALNAME_SIZE - 1)]
  }

  /** What precedes the first slash of a name. */
  predicate IsFirst(part: seq<Byte>, name: seq<Byte>) {
    part <= name && 47 !in part && (|part| < |name| ==> name[|part|] == 47)
  }

  /** The file goes to a folder in the destination directory: the first part of its name, except
      for ".." and without paths, where it is "."; under the last part of its name. */
  predicate IsPlace(dst: seq<Byte>, dstdir: seq<Byte>, name: seq<Byte>, usePaths: bool, folder: seq<Byte>,
      base: seq<Byte>)
  {
    var path := dstdir + [47] + folder + [47] + base;
    && IsTail(base, name, false) && 47 !in folder && folder != [46, 46]
    && (if usePaths && !IsFirst([46, 46], name) then IsFirst(folder, name) else folder == [46])
    && dst == path[..Min(|path|, 255)]
  }

  lemma FirstPartIsFirst(name: seq<Byte>)
    ensures IsFirst(FirstPart(name), name)
    ensures IsFirst([46, 46], name) <==> FirstPart(name) == [46, 46]
  {
    if IsFirst([46, 46], name) {
      FirstPartUnique(name, 2);
    }
  }

  lemma MapPathIsPlace(dstdir: seq<Byte>, name: seq<Byte>, usePaths: bool) returns (folder: seq<Byte>, base: seq<Byte>)
    ensures IsPlace(MapPath(dstdir, name, usePaths), dstdir, name, usePaths, folder, base)
  {
    hide IsFirst, IsTail, Basename;
    folder, base := Folder(name, usePaths), Basename(name, false);
    BasenameIsTail(name, false);
    FirstPartIsFirst(name);
  }

  method uf2_map(dstdir: seq<Byte>, filename: seq<Byte>, usePaths: bool) returns (dst: seq<Byte>)
    ensures dst == MapPath(dstdir, filename, usePaths)
    ensures exists folder, base :: IsPlace(dst, dstdir, filename, usePaths, folder, base)
  {
    hide IsPlace, Basename, FirstPart;
    ghost var folder, base := MapPathIsPlace(dstdir, filename, usePaths);
    var basename := uf2_basename(filename, false);
    var foldername := filename;
    if usePaths {
      var slash := 0;
      while slash < |foldername| && foldername[slash] != SLASH
        invariant 0 <= slash <= |filename| && foldername == filename
        invariant SLASH !in filename[..slash]
      {
        slash := slash + 1;
      }
      FirstPartUnique(filename, slash);
      foldername := foldername[..slash];
      if foldername == DOT_DOT {
        foldername := DOT;
      }
    } else {
      foldername := DOT;
    }
    var s := dstdir + [SLASH] + foldername + [SLASH] + basename;
    dst := s[..Min(|s|, REALNAME_SIZE - 1)];
  }

  lemma FirstPartUnique(name: seq<Byte>, n: nat)
    requires n <= |name| && SLASH !in name[..n] && (n < |name| ==> name[n] == SLASH)
    ensures FirstPart(name) == name[..n]
  {
    if |FirstPart(name)| != n {
      assert false;
    }
  }

  lemma BasenameOfJoined(prefix: seq<Byte>, base: seq<Byte>)
    requires SLASH !in base
    ensures Basename(prefix + [SLASH] + base, false) == base
  {
    var name := prefix + [SLASH] + base;
    assert name[|prefix| + 1..] == base && name[|prefix|] == SLASH;
    BasenameUnique(name, false, |prefix| + 1);
  }

  /** Files with different last components go to different places, if no path is cut. */
  lemma MapPathInjective(dstdir: seq<Byte>, a: seq<Byte>, b: seq<Byte>, usePaths: bool)
    requires Basename(a, false) != Basename(b, false)
    requires |LongPath(dstdir, a, usePaths)| < REALNAME_SIZE && |LongPath(dstdir, b, usePaths)| < REALNAME_SIZE
    ensures MapPath(dstdir, a, usePaths) != MapPath(dstdir, b, usePaths)
  {
    hide Folder;
    var p, q := LongPath(dstdir, a, usePaths), LongPath(dstdir, b, usePaths);
    assert MapPath(dstdir, a, usePaths) == p && MapPath(dstdir, b, usePaths) == q;
    PlainHasNoSlash(a);
    PlainHasNoSlash(b);
    BasenameOfJoined(dstdir + [SLASH] + Folder(a, usePaths), Basename(a, false));
    BasenameOfJoined(dstdir + [SLASH] + Folder(b, usePaths), Basename(b, false));
  }

  lemma PlainHasNoSlash(name: seq<Byte>)
    ensures SLASH !in Basename(name, false)
  {
    assert forall c :: c in Basename(name, false) ==> !IsSeparator(c, false);
  }

  // ----- the file system as the extraction sees it -----

  /** Files by path, directories by path, and the paths the system refuses to create or open. */
  class FileSystem {
    var files: map<seq<Byte>, seq<Byte>>
    var dirs: set<seq<Byte>>
    const refused: set<seq<Byte>>

    constructor (files: map<seq<Byte>, seq<Byte>>, refused: set<seq<Byte>>)
      ensures this.files == files && dirs == {} && this.refused == refused
    {
      this.files, this.dirs, this.refused := files, {}, refused;
    }

    /** mkdir, where an existing directory is no error. */
    method MakeDirectory(path: seq<Byte>) returns (ret: int)
      modifies this`dirs
      ensures ret == if path in refused then -1 else 0
      ensures dirs == if path in refused then old(dirs) else old(dirs) + {path}
    {
      if path in refused { return -1; }
      dirs := dirs + {path};
      ret := 0;
    }
  }

  // ----- uf2_mkdir_for -----

  /** The directories above a file: every prefix that ends where a slash follows a name. */
  function ParentsFrom(path: seq<Byte>, start: nat): set<seq<Byte>> {
    set i | start < i < |path| && path[i] == SLASH && path[i - 1] != SLASH :: path[..i]
  }

  function Parents(path: seq<Byte>): set<seq<Byte>> { ParentsFrom(path, 0) }

  /** The directory a file is in is one of them. */
  lemma DirectoryIsParent(dir: seq<Byte>, base: seq<Byte>)
    requires dir != [] && dir[|dir| - 1] != 47
    ensures dir in Parents(dir + [47] + base)
  {
    var path := dir + [47] + base;
    assert path[|dir|] == SLASH && path[|dir| - 1] != SLASH && path[..|dir|] == dir;
  }

  lemma NoMoreParents(path: seq<Byte>, start: nat, from: nat)
    requires start <= from <= |path|
    requires forall i :: start <= i < from ==> path[i] == SLASH
    requires forall i :: from <= i < |path| ==> path[i] != SLASH
    ensures ParentsFrom(path, start) == {}
  {}

  lemma NextParent(path: seq<Byte>, start: nat, from: nat, slash: nat)
    requires start <= from < slash < |path| && path[slash] == SLASH
    requires forall i :: start <= i < from ==> path[i] == SLASH
    requires forall i :: from <= i < slash ==> path[i] != SLASH
    ensures ParentsFrom(path, start) == {path[..slash]} + ParentsFrom(path, slash + 1)
  {
    var rest := ParentsFrom(path, slash + 1);
    forall d | d in ParentsFrom(path, start)
      ensures d == path[..slash] || d in rest
    {
      var i :| start < i < |path| && path[i] == SLASH && path[i - 1] != SLASH && d == path[..i];
    }
    assert path[slash - 1] != SLASH;
  }

  /** Skips slashes, then a name: `slash` is where the name ends. */
  method SkipComponent(path: array<Byte>, start: nat) returns (slash: nat, ghost from: nat)
    requires path.Length > 0 && start < path.Length && path[path.Length - 1] == 0
    ensures start <= from <= slash < path.Length && (path[slash] == SLASH || path[slash] == 0)
    ensures forall i :: start <= i < from ==> path[i] == SLASH
    ensures forall i :: from <= i < slash ==> path[i] != SLASH && path[i] != 0
    ensures path[slash] == SLASH ==> from < slash
  {
    slash := start;
    while path[slash] == SLASH
      invariant start <= slash < path.Length
      invariant forall i :: start <= i < slash ==> path[i] == SLASH
      decreases path.Length - slash
    {
      slash := slash + 1;
    }
    from := slash;
    while path[slash] != SLASH && path[slash] != 0
      invariant from <= slash < path.Length
      invariant forall i :: from <= i < slash ==> path[i] != SLASH && path[i] != 0
      decreases path.Length - slash
    {
      slash := slash + 1;
    }
  }

  /** Creates the directories above a path. The path buffer is cut at each slash for the call
      and put together again. */
  method uf2_mkdir_impl(fs: FileSystem, path: array<Byte>, start: nat) returns (result: int)
    requires path.Length > 0 && start < path.Length && path[path.Length - 1] == 0
    requires NoNul(path[..path.Length - 1])
    modifies fs`dirs, path
    ensures var p := old(path[..path.Length - 1]);
      if ParentsFrom(p, start) !! fs.refused
      then result == 0 && path[..] == old(path[..]) && fs.dirs == old(fs.dirs) + ParentsFrom(p, start)
      else result == -1 && old(fs.dirs) <= fs.dirs <= old(fs.dirs) + ParentsFrom(p, start)
    decreases path.Length - start
  {
    hide ParentsFrom;
    ghost var p := path[..path.Length - 1];
    assert forall i :: 0 <= i < |p| ==> p[i] == path[i] && p[i] != 0;
    var nextSlash, from := SkipComponent(path, start);
    if path[nextSlash] == 0 {
      NoMoreParents(p, start, from);
      return 0;
    }
    NextParent(p, start, from, nextSlash);
    path[nextSlash] := 0;
    CutString(p, path[..], nextSlash);
    var ret := fs.MakeDirectory(CString(path[..]));
    if ret < 0 { return -1; }
    path[nextSlash] := SLASH;
    assert path[..] == old(path[..]);
    result := uf2_mkdir_impl(fs, path, nextSlash + 1);
  }

  lemma CutString(p: seq<Byte>, path: seq<Byte>, at: nat)
    requires at < |path| && at <= |p| && NoNul(p) && path[..at] == p[..at] && path[at] == 0
    ensures CString(path) == p[..at]
  {
    assert path == path[..at] + path[at..];
    CStringOf(p[..at], path[at..]);
  }

  method uf2_mkdir_for(fs: FileSystem, filename: seq<Byte>) returns (result: int)
    requires NoNul(filename)
    modifies fs`dirs
    ensures if Parents(filename) !! fs.refused
      then result == 0 && fs.dirs == old(fs.dirs) + Parents(filename)
      else result == -1 && old(fs.dirs) <= fs.dirs <= old(fs.dirs) + Parents(filename)
  {
    var copy := filename + [0];
    var mutable := new Byte[|copy|](i requires 0 <= i < |copy| => copy[i]);
    assert mutable[..] == copy && mutable[..|filename|] == filename;
    result := uf2_mkdir_impl(fs, mutable, 0);
  }
}
