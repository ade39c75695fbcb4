/** The Unix behaviour of the three `std::path::Path` queries the back end
    uses: `file_name`, `file_stem` and `parent`. A path is cut at '/' into
    pieces. A leading '/' is the root; otherwise a first piece "." is the
    current-directory prefix. After that prefix the components are the
    pieces other than "" and "." (so repeated and trailing separators and
    inner "." pieces are skipped); ".." is a parent-directory component and
    every other piece a normal one. */
module RustPath {
  import opened Wrappers
  import opened Strings
  import opened Sequences

  const Separator := '/'

  /** The pieces of `p` between separators. */
  function Pieces(p: string): seq<string>
  {
    Split(p, {Separator})
  }

  /** The path starts with the root '/'. */
  predicate HasRoot(pieces: seq<string>)
  {
    |pieces| > 1 && pieces[0] == ""
  }

  /** The path starts with the current-directory prefix ".". */
  predicate HasCurDir(pieces: seq<string>)
  {
    |pieces| >= 1 && pieces[0] == "."
  }

  /** Index of the first piece after the root or current-directory prefix. */
  function BodyStart(pieces: seq<string>): nat
  {
    if HasRoot(pieces) || HasCurDir(pieces) then 1 else 0
  }

  /** A piece that is a component: neither empty nor ".". */
  predicate Significant(piece: string)
  {
    piece != "" && piece != "."
  }

  /** The index of the last component among `pieces[lo..hi]`, if any. */
  function LastSignificant(pieces: seq<string>, lo: nat, hi: nat): (r: Option<nat>)
    requires hi <= |pieces|
    ensures r.Some? ==> lo <= r.value < hi
    decreases hi
  {
    if hi <= lo then None
    else if Significant(pieces[hi - 1]) then Some(hi - 1)
    else LastSignificant(pieces, lo, hi - 1)
  }

  /** `LastSignificant` finds a component with none after it, or reports
      that there is none. */
  lemma {:induction false} LastSignificantSpec(pieces: seq<string>, lo: nat, hi: nat)
    requires hi <= |pieces|
    ensures var r := LastSignificant(pieces, lo, hi);
      (r.Some? ==> lo <= r.value < hi && Significant(pieces[r.value]) &&
                   forall m :: r.value < m < hi ==> !Significant(pieces[m])) &&
      (r.None? ==> forall m :: lo <= m < hi ==> !Significant(pieces[m]))
    decreases hi
  {
    if lo < hi && !Significant(pieces[hi - 1]) {
      LastSignificantSpec(pieces, lo, hi - 1);
    }
  }

  /** `Path::file_name`: the last component when it is a normal one. */
  function FileName(p: string): Option<string>
  {
    var pieces := Pieces(p);
    match LastSignificant(pieces, BodyStart(pieces), |pieces|)
    case None => None
    case Some(k) => if pieces[k] == ".." then None else Some(pieces[k])
  }

  /** `Path::parent`: the path without its last component, with the
      separators and "." pieces before that component trimmed off (but not
      the root or the current-directory prefix). A path whose only component
      is the root, and the empty path, have no parent. */
  function Parent(p: string): Option<string>
  {
    var pieces := Pieces(p);
    var body := BodyStart(pieces);
    match LastSignificant(pieces, body, |pieces|)
    case Some(k) =>
      Some(match LastSignificant(pieces, body, k)
           case Some(j) => Join(pieces[..j + 1], Separator)
           case None => if HasRoot(pieces) then "/" else Join(pieces[..body], Separator))
    case None =>
      if HasCurDir(pieces) then Some("") else None
  }

  /** The stem of a file name: the text before its last '.', or the whole
      name when it has no '.' or its only '.' is the first character. */
  function Stem(name: string): string
  {
    match LastIndexOf(name, '.')
    case Some(i) => if i > 0 then name[..i] else name
    case None => name
  }

  /** `Path::file_stem`: the stem of the file name, if there is one. */
  function FileStem(p: string): (r: Option<string>)
    ensures r.Some? <==> FileName(p).Some?
    ensures r.Some? ==> r.value == Stem(FileName(p).value)
  {
    match FileName(p)
    case None => None
    case Some(name) => Some(Stem(name))
  }

  /** A stem drops exactly the last extension. */
  lemma StemDropsLastExtension(base: string, ext: string)
    requires base != [] && '.' !in ext
    ensures Stem(base + "." + ext) == base
  {
    var name := base + "." + ext;
    assert name[|base|] == '.';
    forall i | |base| < i < |name|
      ensures name[i] != '.'
    {
      assert name[i] == ext[i - |base| - 1];
    }
    assert name[..|base|] == base;
  }

  /** A name with no '.' after its first character is its own stem. */
  lemma StemWithoutExtension(name: string)
    requires forall i :: 0 < i < |name| ==> name[i] != '.'
    ensures Stem(name) == name
  {
  }

  /** Splitting at a separator splits the two sides independently. */
  lemma {:induction false} PiecesAround(a: string, b: string)
    ensures Pieces(a + [Separator] + b) == Pieces(a) + Pieces(b)
    decreases |a|
  {
    var s := a + [Separator] + b;
    if a == [] {
      assert s[1..] == b;
    } else {
      assert s[1..] == a[1..] + [Separator] + b;
      PiecesAround(a[1..], b);
      var restA := Pieces(a[1..]);
      if a[0] == Separator {
        calc {
          Pieces(s);
          [[]] + Pieces(s[1..]);
          [[]] + (restA + Pieces(b));
          ([[]] + restA) + Pieces(b);
          Pieces(a) + Pieces(b);
        }
      } else {
        calc {
          Pieces(s);
          [[a[0]] + (restA + Pieces(b))[0]] + (restA + Pieces(b))[1..];
          { assert (restA + Pieces(b))[1..] == restA[1..] + Pieces(b); }
          [[a[0]] + restA[0]] + restA[1..] + Pieces(b);
          Pieces(a) + Pieces(b);
        }
      }
    }
  }

  /** The first piece is empty, with more pieces after it, exactly when the
      path starts with '/'. */
  lemma HasRootIff(p: string)
    ensures HasRoot(Pieces(p)) <==> |p| > 0 && p[0] == Separator
  {
    SplitFirst(p, {Separator});
    SplitSingle(p, {Separator});
  }

  /** A path has no parent exactly when it is empty or starts with the root
      and has no component after it; only then does the back end fall back
      to ".". */
  lemma ParentNoneIff(p: string)
    ensures Parent(p).None? <==>
      (|p| == 0 || p[0] == Separator) &&
      forall k :: 0 <= k < |Pieces(p)| ==> !Significant(Pieces(p)[k])
  {
    var pieces := Pieces(p);
    HasRootIff(p);
    SplitFirst(p, {Separator});
    var body := BodyStart(pieces);
    LastSignificantSpec(pieces, body, |pieces|);
    assert body == 1 ==> !Significant(pieces[0]);
  }

  /** A path with no parent has no file name either. */
  lemma NoParentNoFileName(p: string)
    requires Parent(p).None?
    ensures FileName(p).None?
  {
  }

  /** When the last piece of a path is a normal component, it is the file
      name. */
  lemma FileNameIsLastPiece(p: string)
    requires Significant(LastPiece(p, {Separator})) && LastPiece(p, {Separator}) != ".."
    ensures FileName(p) == Some(LastPiece(p, {Separator}))
  {
  }

  /** For `dir/name`, where `dir` ends in a normal component and `name` is
      a normal component, the parent is `dir` exactly as written and the
      file name is `name`. */
  lemma ParentOfChild(dir: string, name: string)
    requires Significant(LastPiece(dir, {Separator}))
    requires Significant(name) && name != ".." && FreeOf(name, {Separator})
    ensures Parent(dir + [Separator] + name) == Some(dir)
    ensures FileName(dir + [Separator] + name) == Some(name)
  {
    var p := dir + [Separator] + name;
    PiecesAround(dir, name);
    SplitSingle(name, {Separator});
    SplitLast(name, {Separator});
    var front := Pieces(dir);
    var pieces := Pieces(p);
    assert Pieces(name) == [name];
    assert pieces == front + [name];
    JoinSplit(dir, Separator);
    assert pieces[..|front|] == front;
    var k := |pieces| - 1;
    assert pieces[k] == name;
    assert Significant(pieces[k - 1]);
    var body := BodyStart(pieces);
    assert body <= k - 1 by {
      if |front| == 1 {
        assert pieces[0] == front[0];
      }
    }
    assert LastSignificant(pieces, body, |pieces|) == Some(k);
    assert LastSignificant(pieces, body, k) == Some(k - 1);
  }

  /** A bare relative name has the empty string as its parent. */
  lemma ParentOfBareName(name: string)
    requires Significant(name) && name != ".." && FreeOf(name, {Separator})
    ensures Parent(name) == Some("")
    ensures FileName(name) == Some(name)
  {
    SplitSingle(name, {Separator});
    SplitLast(name, {Separator});
    assert Pieces(name) == [name];
    assert Pieces(name)[..0] == [];
  }

  /** A name directly under the root has "/" as its parent. */
  lemma ParentOfRootChild(name: string)
    requires Significant(name) && name != ".." && FreeOf(name, {Separator})
    ensures Parent([Separator] + name) == Some("/")
    ensures FileName([Separator] + name) == Some(name)
  {
    PiecesAround("", name);
    SplitSingle(name, {Separator});
    SplitLast(name, {Separator});
    assert "" + [Separator] + name == [Separator] + name;
    assert Pieces("") == [""];
    assert Pieces(name) == [name];
    assert Pieces([Separator] + name) == ["", name];
  }

  /** A trailing separator is skipped: for `dir/name/` the parent is
      still `dir` as written and the file name is still `name`. */
  lemma TrailingSeparatorSkipped(dir: string, name: string)
    requires Significant(LastPiece(dir, {Separator}))
    requires Significant(name) && name != ".." && FreeOf(name, {Separator})
    ensures Parent(dir + [Separator] + name + [Separator]) == Some(dir)
    ensures FileName(dir + [Separator] + name + [Separator]) == Some(name)
  {
    var p := dir + [Separator] + name + [Separator];
    TrailingSeparatorPieces(dir, name);
    var front := Pieces(dir);
    var pieces := Pieces(p);
    JoinSplit(dir, Separator);
    assert pieces[..|front|] == front;
    var k := |pieces| - 2;
    assert pieces[k] == name;
    assert Significant(pieces[k - 1]);
    var body := BodyStart(pieces);
    assert body <= k - 1 by {
      if |front| == 1 {
        assert pieces[0] == front[0];
      }
    }
    assert LastSignificant(pieces, body, |pieces|) == Some(k);
    assert LastSignificant(pieces, body, k) == Some(k - 1);
  }

  lemma TrailingSeparatorPieces(dir: string, name: string)
    requires FreeOf(name, {Separator})
    ensures Pieces(dir + [Separator] + name + [Separator]) == Pieces(dir) + [name, ""]
  {
    assert dir + [Separator] + name + [Separator] == dir + [Separator] + (name + [Separator]);
    assert name + [Separator] + "" == name + [Separator];
    PiecesAround(dir, name + [Separator]);
    PiecesAround(name, "");
    SplitSingle(name, {Separator});
    SplitLast(name, {Separator});
    assert Pieces(name) == [name];
    assert Pieces("") == [""];
  }

  /** A path whose text after the last '/' is ".." has no file name. */
  lemma ParentReferenceHasNoFileName(p: string)
    requires LastPiece(p, {Separator}) == ".."
    ensures FileName(p).None?
  {
    var pieces := Pieces(p);
    assert pieces[|pieces| - 1] == "..";
    assert LastSignificant(pieces, BodyStart(pieces), |pieces|) == Some(|pieces| - 1);
  }
}
