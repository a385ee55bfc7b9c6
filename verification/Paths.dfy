/** Lexical simplification of remote paths (oldmega.c). */
module Paths {

  // ---- Splitting and joining at slashes ----

  /** The pieces between slashes, empty ones included; the empty string is one empty piece. */
  function Pieces(s: string): (r: seq<string>)
    ensures |r| > 0
  {
    if s == "" then [""]
    else
      var r, c := Pieces(s[..|s| - 1]), s[|s| - 1];
      if c == '/' then r + [""] else r[|r| - 1 := r[|r| - 1] + [c]]
  }

  /** g_strsplit: as above, but nothing for the empty string */
  function Split(s: string): seq<string>
  {
    if s == "" then [] else Pieces(s)
  }

  /** g_strjoinv */
  function JoinPath(v: seq<string>): string
  {
    if v == [] then ""
    else if |v| == 1 then v[0]
    else JoinPath(v[..|v| - 1]) + "/" + v[|v| - 1]
  }

  predicate SlashFree(s: string)
  {
    '/' !in s
  }

  predicate AllSlashFree(v: seq<string>)
  {
    forall i | 0 <= i < |v| :: SlashFree(v[i])
  }

  predicate OnlySlashes(path: string)
  {
    path != "" && forall i | 0 <= i < |path| :: path[i] == '/'
  }

  lemma {:induction false} PiecesAppend(s: string, t: string)
    requires SlashFree(t)
    ensures Pieces(s + "/" + t) == Pieces(s) + [t]
  {
    var whole := s + "/" + t;
    if t == "" {
      assert whole[..|whole| - 1] == s;
    } else {
      PiecesAppend(s, t[..|t| - 1]);
      assert whole[..|whole| - 1] == s + "/" + t[..|t| - 1];
      assert t == t[..|t| - 1] + [t[|t| - 1]];
    }
  }

  lemma {:induction false} PiecesSlashFree(s: string)
    requires SlashFree(s)
    ensures Pieces(s) == [s]
  {
    if s != "" {
      PiecesSlashFree(s[..|s| - 1]);
      assert s == s[..|s| - 1] + [s[|s| - 1]];
    }
  }

  lemma {:induction false} PiecesOfJoin(v: seq<string>)
    requires v != [] && AllSlashFree(v)
    ensures Pieces(JoinPath(v)) == v
  {
    if |v| == 1 {
      PiecesSlashFree(v[0]);
    } else {
      PiecesOfJoin(v[..|v| - 1]);
      PiecesAppend(JoinPath(v[..|v| - 1]), v[|v| - 1]);
      assert v == v[..|v| - 1] + [v[|v| - 1]];
    }
  }

  lemma {:induction false} PiecesAreSlashFree(s: string)
    ensures AllSlashFree(Pieces(s))
  {
    if s != "" {
      PiecesAreSlashFree(s[..|s| - 1]);
      var r, c := Pieces(s[..|s| - 1]), s[|s| - 1];
      if c != '/' {
        assert SlashFree(r[|r| - 1] + [c]);
      }
    }
  }

  // ---- What a path means ----

  /** One step from a directory, given as the names from the root down; `..` stays at the root. */
  function Enter(dir: seq<string>, e: string): seq<string>
  {
    if e == "" || e == "." then dir
    else if e == ".." then (if dir == [] then [] else dir[..|dir| - 1])
    else dir + [e]
  }

  function Resolve(dir: seq<string>, v: seq<string>): seq<string>
  {
    if v == [] then dir else Enter(Resolve(dir, v[..|v| - 1]), v[|v| - 1])
  }

  predicate Absolute(path: string)
  {
    path != "" && path[0] == '/'
  }

  /** The directory a path leads to from a current directory. */
  function Meaning(cwd: seq<string>, path: string): seq<string>
  {
    Resolve(if Absolute(path) then [] else cwd, Pieces(path))
  }

  function NonEmpty(v: seq<string>): seq<string>
  {
    if v == [] then []
    else NonEmpty(v[..|v| - 1]) + if v[|v| - 1] == "" then [] else [v[|v| - 1]]
  }

  /** Empty pieces do not matter. */
  lemma {:induction false} ResolveNonEmpty(dir: seq<string>, v: seq<string>)
    ensures Resolve(dir, NonEmpty(v)) == Resolve(dir, v)
  {
    if v != [] {
      ResolveNonEmpty(dir, v[..|v| - 1]);
      var front, last := NonEmpty(v[..|v| - 1]), v[|v| - 1];
      if last == "" {
        assert NonEmpty(v) == front;
      } else {
        assert (front + [last])[..|front|] == front;
      }
    }
  }

  // ---- Slashes ----

  function Collapse(path: string): string
  {
    if path == "" then ""
    else
      var front, c := path[..|path| - 1], path[|path| - 1];
      if c == '/' && front != "" && front[|front| - 1] == '/' then Collapse(front) else Collapse(front) + [c]
  }

  function TrimSlash(s: string): string
  {
    if |s| > 1 && s[|s| - 1] == '/' then s[..|s| - 1] else s
  }

  function Sanitize(path: string): string
  {
    TrimSlash(Collapse(path))
  }

  function Elements(path: string): seq<string>
  {
    Split(Sanitize(path))
  }

  function Last(v: seq<string>): string
    requires v != []
  {
    v[|v| - 1]
  }

  function Front(v: seq<string>): seq<string>
    requires v != []
  {
    v[..|v| - 1]
  }

  /** Only the first and the last piece can be empty, and they are so next to a slash. */
  ghost predicate TightPieces(t: string)
  {
    var p := Pieces(t);
    && (forall i | 0 < i < |p| - 1 :: p[i] != "")
    && (Last(p) == "" <==> t == "" || t[|t| - 1] == '/')
    && (p[0] == "" <==> t == "" || t[0] == '/')
  }

  lemma {:induction false} CollapsedPieces(path: string)
    ensures var t := Collapse(path);
      && TightPieces(t)
      && (path == "" <==> t == "")
      && (path != "" ==> t[|t| - 1] == path[|path| - 1] && t[0] == path[0])
  {
    if path != "" {
      var front, c := path[..|path| - 1], path[|path| - 1];
      CollapsedPieces(front);
      if !(c == '/' && front != "" && front[|front| - 1] == '/') {
        TightSnoc(Collapse(front), c);
      }
    }
  }

  lemma TightSnoc(t: string, c: char)
    requires TightPieces(t) && (c == '/' ==> t == "" || t[|t| - 1] != '/')
    ensures TightPieces(t + [c])
  {
    var p, q := Pieces(t), Pieces(t + [c]);
    assert (t + [c])[..|t + [c]| - 1] == t;
    forall i | 0 < i < |q| - 1 ensures q[i] != "" {
      assert q[i] == p[i];
    }
    assert |p| > 1 ==> q[0] == p[0];
  }

  /** The non-empty pieces that are complete, and the one being read. */
  function Complete(s: string): seq<string>
  {
    NonEmpty(Front(Pieces(s)))
  }

  function Current(s: string): string
  {
    Last(Pieces(s))
  }

  lemma PiecesSnoc(s: string, c: char)
    ensures Current(s + [c]) == if c == '/' then "" else Current(s) + [c]
    ensures Complete(s + [c]) == if c == '/' && Current(s) != "" then Complete(s) + [Current(s)] else Complete(s)
  {
    var t, r := s + [c], Pieces(s);
    assert t[..|t| - 1] == s;
    if c == '/' {
      FrontLast(r);
      assert Front(r + [""]) == r;
    } else {
      assert Front(r[|r| - 1 := r[|r| - 1] + [c]]) == Front(r);
    }
  }

  /** Collapsing slashes keeps the non-empty pieces. */
  lemma {:induction false} CollapseKeepsNames(path: string)
    ensures Complete(Collapse(path)) == Complete(path) && Current(Collapse(path)) == Current(path)
  {
    if path != "" {
      var front, c := path[..|path| - 1], path[|path| - 1];
      CollapseKeepsNames(front);
      assert path == front + [c];
      PiecesSnoc(front, c);
      if c == '/' && front != "" && front[|front| - 1] == '/' {
        AfterSlash(front);
      } else {
        PiecesSnoc(Collapse(front), c);
      }
    }
  }

  lemma AfterSlash(s: string)
    requires s != "" && s[|s| - 1] == '/'
    ensures Current(s) == ""
  {
  }

  lemma {:induction false} FrontLast(v: seq<string>)
    requires v != []
    ensures NonEmpty(v) == NonEmpty(Front(v)) + if Last(v) == "" then [] else [Last(v)]
  {
  }

  /** The elements of a path have the same non-empty pieces as the path. */
  lemma {:induction false} ElementsKeepNames(path: string)
    ensures NonEmpty(Elements(path)) == NonEmpty(Pieces(path))
  {
    var t := Collapse(path);
    CollapseKeepsNames(path);
    FrontLast(Pieces(t));
    FrontLast(Pieces(path));
    if |t| > 1 && t[|t| - 1] == '/' {
      var s := t[..|t| - 1];
      assert Front(Pieces(t)) == Pieces(s);
    } else if t == "" {
      assert NonEmpty([""]) == NonEmpty([]);
    }
  }

  /** The elements of a path: none for the empty path, two empty ones for a path of slashes only;
      otherwise only the first can be empty, and it is so exactly for absolute paths. */
  lemma ElementsShape(path: string)
    ensures var v := Elements(path);
      && (AllSlashFree(v))
      && (if path == "" then v == []
          else if OnlySlashes(path) then v == ["", ""]
          else v != [] && (v[0] == "" <==> Absolute(path)) && (v[0] == "" ==> |v| > 1) && forall i | 0 < i < |v| ::
            v[i] != "")
  {
    var t := Collapse(path);
    CollapsedPieces(path);
    PiecesAreSlashFree(Sanitize(path));
    CollapseAllSlashes(path);
    if t == "/" {
      assert "/"[..0] == "" && Pieces("/") == ["", ""];
    } else if path != "" {
      if t[|t| - 1] == '/' {
        TrimmedPieces(t);
      }
      if |Elements(path)| == 1 && Absolute(path) {
        SinglePiece(Sanitize(path));
      }
    }
  }

  lemma TrimmedPieces(t: string)
    requires TightPieces(t) && |t| > 1 && t[|t| - 1] == '/'
    ensures var p := Pieces(t[..|t| - 1]);
      (p[0] == "" <==> t[0] == '/') && forall i | 0 < i < |p| :: p[i] != ""
  {
    var p := Pieces(t[..|t| - 1]);
    assert Pieces(t) == p + [""];
    forall i | 0 < i < |p| ensures p[i] != "" {
      assert Pieces(t)[i] == p[i];
    }
  }

  lemma {:induction false} SinglePiece(s: string)
    requires |Pieces(s)| == 1
    ensures SlashFree(s)
  {
    if s != "" {
      SinglePiece(s[..|s| - 1]);
    }
  }

  lemma {:induction false} CollapseAllSlashes(path: string)
    ensures Collapse(path) == "/" <==> OnlySlashes(path)
  {
    if path != "" {
      var front, c := path[..|path| - 1], path[|path| - 1];
      CollapseAllSlashes(front);
      CollapsedPieces(front);
      assert OnlySlashes(path) <==> c == '/' && (front == "" || OnlySlashes(front)) by {
        if OnlySlashes(path) {
          assert forall i | 0 <= i < |front| :: front[i] == path[i];
        }
      }
    }
  }

  // ---- Simplification ----

  /** One element of the path against the elements kept so far. */
  function KeepStep(absolute: bool, kept: seq<string>, e: string): seq<string>
  {
    if e == "." then kept
    else if e == ".." then
      if absolute then (if |kept| > 1 then kept[..|kept| - 1] else kept)
      else if kept == [] || kept[|kept| - 1] == ".." then kept + [e]
      else kept[..|kept| - 1]
    else kept + [e]
  }

  function Keep(absolute: bool, v: seq<string>): seq<string>
  {
    if v == [] then [] else KeepStep(absolute, Keep(absolute, v[..|v| - 1]), v[|v| - 1])
  }

  predicate StartsEmpty(v: seq<string>)
  {
    |v| > 1 && v[0] == ""
  }

  function Simplify(path: string): string
  {
    JoinPath(Keep(StartsEmpty(Elements(path)), Elements(path)))
  }

  predicate Plain(e: string)
  {
    e != "" && e != "." && e != ".."
  }

  /** A run of `..` followed by plain names. */
  predicate RelativeNormal(v: seq<string>)
  {
    && (forall i | 0 <= i < |v| :: v[i] != "" && v[i] != ".")
    && (forall i, j | 0 <= i < j < |v| && v[j] == ".." :: v[i] == "..")
  }

  /** An empty element followed by plain names. */
  predicate AbsoluteNormal(v: seq<string>)
  {
    v != [] && v[0] == "" && forall i | 0 < i < |v| :: Plain(v[i])
  }

  lemma {:induction false} KeepRelative(dir: seq<string>, v: seq<string>)
    requires forall i | 0 <= i < |v| :: v[i] != ""
    ensures RelativeNormal(Keep(false, v))
    ensures Resolve(dir, Keep(false, v)) == Resolve(dir, v)
  {
    if v != [] {
      KeepRelative(dir, v[..|v| - 1]);
      KeepStepMeaning(false, dir, Keep(false, v[..|v| - 1]), v[|v| - 1]);
    }
  }

  /** One step keeps the meaning: entering the element after the kept ones. */
  lemma {:induction false} KeepStepMeaning(absolute: bool, dir: seq<string>, kept: seq<string>, e: string)
    requires if absolute then AbsoluteNormal(kept) && dir == [] else RelativeNormal(kept)
    requires e != ""
    ensures if absolute then AbsoluteNormal(KeepStep(absolute, kept, e))
      else RelativeNormal(KeepStep(absolute, kept, e))
    ensures Resolve(dir, KeepStep(absolute, kept, e)) == Enter(Resolve(dir, kept), e)
  {
    if absolute {
      AbsoluteResolves(kept);
      AbsoluteResolves(KeepStep(absolute, kept, e));
    } else {
      var next := KeepStep(absolute, kept, e);
      if e != "." && next == kept + [e] {
        assert next[..|next| - 1] == kept;
      }
    }
  }

  lemma {:induction false} AbsoluteResolves(kept: seq<string>)
    requires AbsoluteNormal(kept)
    ensures Resolve([], kept) == kept[1..]
  {
    if |kept| == 1 {
      assert Resolve([], kept[..0]) == [];
    } else {
      AbsoluteResolves(kept[..|kept| - 1]);
      assert kept[1..] == kept[..|kept| - 1][1..] + [kept[|kept| - 1]];
    }
  }

  lemma {:induction false} KeepAbsolute(v: seq<string>)
    requires v != [] && v[0] == "" && forall i | 0 < i < |v| :: v[i] != ""
    ensures AbsoluteNormal(Keep(true, v))
    ensures Resolve([], Keep(true, v)) == Resolve([], v)
  {
    if |v| == 1 {
      assert Keep(true, v[..0]) == [] && Keep(true, v) == [""];
      assert v == [""];
    } else {
      KeepAbsolute(v[..|v| - 1]);
      KeepStepMeaning(true, [], Keep(true, v[..|v| - 1]), v[|v| - 1]);
    }
  }

  /** The kept elements of a path. */
  lemma KeptElements(path: string)
    ensures var v := Elements(path);
      var kept := Keep(StartsEmpty(v), v);
      && (AllSlashFree(kept))
      && (if OnlySlashes(path) then kept == ["", ""]
          else if Absolute(path) then StartsEmpty(v) && AbsoluteNormal(kept)
          else !StartsEmpty(v) && RelativeNormal(kept))
      && forall dir: seq<string> | Absolute(path) ==> dir == [] :: Resolve(dir, kept) == Resolve(dir, v)
  {
    var v := Elements(path);
    var kept := Keep(StartsEmpty(v), v);
    ElementsShape(path);
    KeepSubset(StartsEmpty(v), v);
    if OnlySlashes(path) {
      KeepTwoEmpty();
    } else {
      forall dir: seq<string> | Absolute(path) ==> dir == []
        ensures if Absolute(path) then AbsoluteNormal(kept) else RelativeNormal(kept)
        ensures Resolve(dir, kept) == Resolve(dir, v)
      {
        if Absolute(path) {
          KeepAbsolute(v);
        } else {
          KeepRelative(dir, v);
        }
      }
      assert Resolve([], kept) == Resolve([], v);
    }
  }

  lemma KeepTwoEmpty()
    ensures Keep(true, ["", ""]) == ["", ""]
  {
    assert ["", ""][..1] == [""] && [""][..0] == [];
    assert Keep(true, []) == [] && Keep(true, [""]) == [""];
  }

  lemma {:induction false} KeepSubset(absolute: bool, v: seq<string>)
    requires AllSlashFree(v)
    ensures AllSlashFree(Keep(absolute, v))
  {
    if v != [] {
      KeepSubset(absolute, v[..|v| - 1]);
    }
  }

  /** Simplification keeps the meaning of every path, from every directory; the result for an
      absolute path is read from the root even when it is empty. */
  lemma SimplifyMeaning(cwd: seq<string>, path: string)
    ensures Meaning(if Absolute(path) then [] else cwd, Simplify(path)) == Meaning(cwd, path)
  {
    var dir := if Absolute(path) then [] else cwd;
    var v := Elements(path);
    var kept := Keep(StartsEmpty(v), v);
    KeptElements(path);
    ElementsKeepNames(path);
    ResolveNonEmpty(dir, v);
    ResolveNonEmpty(dir, Pieces(path));
    assert Resolve(dir, kept) == Resolve(dir, Pieces(path));
    JoinedPieces(dir, kept);
    if !Absolute(path) {
      RelativeJoin(kept);
    }
  }

  lemma {:induction false} JoinedPieces(dir: seq<string>, kept: seq<string>)
    requires AllSlashFree(kept)
    ensures Resolve(dir, Pieces(JoinPath(kept))) == Resolve(dir, kept)
  {
    if kept == [] {
      assert Pieces("") == [""];
      assert Resolve(dir, [""]) == Enter(Resolve(dir, [""][..0]), "");
    } else {
      PiecesOfJoin(kept);
    }
  }

  lemma {:induction false} RelativeJoin(v: seq<string>)
    requires RelativeNormal(v) && AllSlashFree(v)
    ensures !Absolute(JoinPath(v)) && (v != [] ==> JoinPath(v) != "")
  {
    if |v| == 1 {
      assert v[0] != "" && v[0][0] in v[0];
    } else if |v| > 1 {
      RelativeJoin(v[..|v| - 1]);
    }
  }

  /** The shape of the result. */
  lemma SimplifyShape(path: string)
    ensures var r := Simplify(path);
      && (OnlySlashes(path) ==> r == "/")
      && (!OnlySlashes(path) && Absolute(path) ==> AbsoluteNormal(Pieces(r)))
      && (!Absolute(path) ==> !Absolute(r) && RelativeNormal(Split(r)))
  {
    var v := Elements(path);
    var kept := Keep(StartsEmpty(v), v);
    KeptElements(path);
    if OnlySlashes(path) {
      assert ["", ""][..1] == [""];
    } else if kept != [] {
      PiecesOfJoin(kept);
      if !Absolute(path) {
        RelativeJoin(kept);
      }
    }
  }

  /** Simplifying an absolute path gives the empty string exactly when it leads to the root without
      consisting of slashes only. */
  lemma SimplifyToEmpty(path: string)
    requires Absolute(path)
    ensures Simplify(path) == "" <==> Meaning([], path) == [] && !OnlySlashes(path)
  {
    SimplifyMeaning([], path);
    SimplifyShape(path);
    var r := Simplify(path);
    if !OnlySlashes(path) {
      AbsoluteResolves(Pieces(r));
      if Meaning([], path) == [] {
        assert Pieces(r) == [""];
        SinglePiece(r);
        PiecesSlashFree(r);
      }
    }
  }

  lemma {:induction false} KeepSnoc(absolute: bool, v: seq<string>, e: string)
    ensures Keep(absolute, v + [e]) == KeepStep(absolute, Keep(absolute, v), e)
  {
    assert (v + [e])[..|v|] == v;
  }

  /** A path that is put together from names and dots is simplified element by element. */
  lemma SimplifyJoined(v: seq<string>)
    requires |v| > 1 && AllSlashFree(v) && forall i | 0 < i < |v| :: v[i] != ""
    requires JoinPath(v) != ""
    ensures Simplify(JoinPath(v)) == JoinPath(Keep(v[0] == "", v))
  {
    JoinIsSane(v);
    PiecesOfJoin(v);
  }

  /** Dots stay where they are; two dots go up, but stay at the front of a relative path. */
  lemma DotsInPaths(a: string, b: string, c: string)
    requires Plain(a) && Plain(b) && Plain(c)
    ensures Keep(true, ["", a, ".", b, "..", c]) == ["", a, c]
    ensures Keep(false, ["..", a, ".."]) == [".."]
  {
    KeepSnoc(true, [], "");
    KeepSnoc(true, [""], a);
    KeepSnoc(true, ["", a], ".");
    KeepSnoc(true, ["", a, "."], b);
    KeepSnoc(true, ["", a, ".", b], "..");
    KeepSnoc(true, ["", a, ".", b, ".."], c);
    assert [] + [""] == [""] && [""] + [a] == ["", a] && ["", a] + ["."] == ["", a, "."];
    assert ["", a, "."] + [b] == ["", a, ".", b] && ["", a, ".", b] + [".."] == ["", a, ".", b, ".."];
    assert ["", a, ".", b, ".."] + [c] == ["", a, ".", b, "..", c];
    DotsInRelative(a);
  }

  lemma DotsInRelative(a: string)
    requires Plain(a)
    ensures Keep(false, ["..", a, ".."]) == [".."]
  {
    KeepSnoc(false, [], "..");
    KeepSnoc(false, [".."], a);
    KeepSnoc(false, ["..", a], "..");
    assert [] + [".."] == [".."] && [".."] + [a] == ["..", a] && ["..", a] + [".."] == ["..", a, ".."];
  }

  /** A path that becomes the empty string */
  lemma SimplifyParentOfTop()
    ensures Absolute("/a/..") && Simplify("/a/..") == ""
  {
    var v := ["", "a", ".."];
    ParentKept("a");
    ParentText();
    JoinOne("");
    hide Keep, JoinPath, Simplify;
    SimplifyJoined(v);
  }

  lemma ParentKept(a: string)
    requires Plain(a)
    ensures Keep(true, ["", a, ".."]) == [""]
  {
    KeepSnoc(true, [], "");
    KeepSnoc(true, [""], a);
    KeepSnoc(true, ["", a], "..");
    assert [] + [""] == [""] && [""] + [a] == ["", a] && ["", a] + [".."] == ["", a, ".."];
  }

  lemma JoinOne(e: string)
    ensures JoinPath([e]) == e
  {
  }

  lemma ParentText()
    ensures JoinPath(["", "a", ".."]) == "/a/.."
  {
    assert ["", "a", ".."][..2] == ["", "a"] && ["", "a"][..1] == [""];
    assert JoinPath(["", "a"]) == "/a";
  }

  // ---- Idempotence ----

  lemma {:induction false} NormalIsFixed(absolute: bool, v: seq<string>)
    requires v == [] || if absolute then AbsoluteNormal(v) else RelativeNormal(v)
    ensures Keep(absolute, v) == v
  {
    if v != [] {
      if |v| > 1 || !absolute {
        NormalIsFixed(absolute, v[..|v| - 1]);
      } else {
        assert Keep(true, v[..0]) == [];
      }
      assert v == v[..|v| - 1] + [v[|v| - 1]];
    }
  }

  /** Joining elements of which only the first is empty gives a path that sanitizing leaves alone. */
  lemma {:induction false} JoinIsSane(v: seq<string>)
    requires v != [] && AllSlashFree(v)
    requires forall i | 0 < i < |v| :: v[i] != ""
    ensures Collapse(JoinPath(v)) == JoinPath(v)
    ensures JoinPath(v) != "" ==> JoinPath(v)[|JoinPath(v)| - 1] != '/'
  {
    if |v| == 1 {
      CollapseSlashFree("", v[0]);
      assert "" + v[0] == v[0];
    } else {
      JoinIsSane(v[..|v| - 1]);
      SaneAppend(JoinPath(v[..|v| - 1]), v[|v| - 1]);
    }
  }

  lemma {:induction false} SaneAppend(s: string, last: string)
    requires Collapse(s) == s && (s != "" ==> s[|s| - 1] != '/') && SlashFree(last) && last != ""
    ensures Collapse(s + "/" + last) == s + "/" + last
    ensures (s + "/" + last)[|s + "/" + last| - 1] != '/'
  {
    assert (s + "/")[..|s + "/"| - 1] == s;
    CollapseSlashFree(s + "/", last);
    assert (s + "/" + last)[|s + "/" + last| - 1] == last[|last| - 1];
    assert last[|last| - 1] in last;
  }

  lemma {:induction false} CollapseSlashFree(s: string, t: string)
    requires SlashFree(t) && Collapse(s) == s
    ensures Collapse(s + t) == s + t
  {
    if t == "" {
      assert s + t == s;
    } else {
      var front, c := t[..|t| - 1], t[|t| - 1];
      CollapseSlashFree(s, front);
      assert s + t == (s + front) + [c];
      assert c in t;
      CollapseOther(s + front, c);
    }
  }

  lemma {:induction false} CollapseOther(s: string, c: char)
    requires c != '/'
    ensures Collapse(s + [c]) == Collapse(s) + [c]
  {
    assert (s + [c])[..|s + [c]| - 1] == s;
  }

  /** The text of kept elements is as it is after simplifying. */
  lemma NormalText(kept: seq<string>, r: string)
    requires r == JoinPath(kept) && r != "" && AllSlashFree(kept) && (AbsoluteNormal(kept) || RelativeNormal(kept))
    ensures Simplify(r) == r
  {
    JoinIsSane(kept);
    PiecesOfJoin(kept);
    assert Elements(r) == kept;
    NormalIsFixed(StartsEmpty(kept), kept);
  }

  lemma RootAndNothing()
    ensures Simplify("/") == "/" && Simplify("") == ""
  {
    SimplifyShape("/");
    assert Elements("") == [] && Keep(false, []) == [];
  }

  /** Simplifying twice is simplifying once. */
  lemma SimplifyIdempotent(path: string)
    ensures Simplify(Simplify(path)) == Simplify(path)
  {
    var v := Elements(path);
    var kept := Keep(StartsEmpty(v), v);
    KeptElements(path);
    RootAndNothing();
    if OnlySlashes(path) {
      SimplifyShape(path);
    } else if JoinPath(kept) != "" {
      NormalText(kept, JoinPath(kept));
    }
  }

  lemma {:induction false} NoDoubleSlash(path: string)
    ensures var t := Collapse(path); forall i | 0 <= i < |t| - 1 :: !(t[i] == '/' && t[i + 1] == '/')
  {
    if path != "" {
      var front := path[..|path| - 1];
      NoDoubleSlash(front);
      CollapsedPieces(front);
    }
  }

  /** A path with its slashes cleaned up: no two side by side, none at the end but that of the root, and the path is
      absolute when it was; the names are the same. */
  lemma SanitizeShape(path: string)
    ensures var r := Sanitize(path);
      && (forall i | 0 <= i < |r| - 1 :: !(r[i] == '/' && r[i + 1] == '/'))
      && (|r| > 1 ==> r[|r| - 1] != '/')
      && (Absolute(r) <==> Absolute(path)) && (r == "" <==> path == "")
      && NonEmpty(Pieces(r)) == NonEmpty(Pieces(path))
  {
    NoDoubleSlash(path);
    CollapsedPieces(path);
    ElementsKeepNames(path);
    assert NonEmpty([""]) == NonEmpty([]);
  }

  // ---- The C functions ----

  /** `path_sanitize_slashes` */
  method PathSanitizeSlashes(path: string) returns (sane: string)
    ensures sane == Sanitize(path)
  {
    sane := "";
    var previousWasSlash := false;
    var i := 0;
    while i < |path|
      invariant 0 <= i <= |path|
      invariant sane == Collapse(path[..i])
      invariant previousWasSlash == (i > 0 && path[i - 1] == '/')
    {
      assert path[..i + 1][..i] == path[..i];
      if path[i] != '/' || !previousWasSlash {
        sane := sane + [path[i]];
      }
      previousWasSlash := path[i] == '/';
      i := i + 1;
    }
    assert path[..i] == path;
    if |sane| > 1 && sane[|sane| - 1] == '/' {
      sane := sane[..|sane| - 1];
    }
  }

  /** How the counters of `path_simplify` describe the kept elements: `subroot` tells whether a
      relative path begins with `..`. */
  ghost predicate Counts(absolute: bool, kept: seq<string>, subroot: nat)
  {
    absolute || (RelativeNormal(kept) && subroot == if kept != [] && kept[0] == ".." then 1 else 0)
  }

  lemma CountsLast(kept: seq<string>, subroot: nat)
    requires Counts(false, kept, subroot) && kept != []
    ensures kept[|kept| - 1] == ".." ==> subroot == 1
    ensures kept[|kept| - 1] != ".." ==> |kept| > subroot
  {
  }

  /** The body of the loop of `path_simplify` */
  method KeepElement(sanePathv: array<string>, j0: nat, subroot0: nat, absolute: bool, e: string)
    returns (j: nat, subroot: nat)
    requires j0 < sanePathv.Length && Counts(absolute, sanePathv[..j0], subroot0) && (absolute || e != "")
    modifies sanePathv
    ensures j <= j0 + 1 && sanePathv[..j] == KeepStep(absolute, old(sanePathv[..j0]), e)
    ensures Counts(absolute, sanePathv[..j], subroot)
  {
    ghost var kept := sanePathv[..j0];
    if !absolute {
      KeepStepMeaning(false, [], kept, e);
      if j0 > 0 {
        CountsLast(kept, subroot0);
      }
    }
    j, subroot := j0, subroot0;
    if e == "." {
    } else if e == ".." {
      if absolute {
        if j > 1 {
          j := j - 1;
          assert sanePathv[..j] == kept[..j];
        }
      } else if subroot > 0 && sanePathv[j - 1] == ".." {
        j := Put(sanePathv, j, e);
      } else if j > subroot {
        j := j - 1;
        assert sanePathv[..j] == kept[..j];
      } else {
        subroot := subroot + 1;
        j := Put(sanePathv, j, e);
      }
    } else {
      j := Put(sanePathv, j, e);
    }
  }

  method Put(a: array<string>, j: nat, e: string) returns (next: nat)
    requires j < a.Length
    modifies a
    ensures next == j + 1 && a[..next] == old(a[..j]) + [e]
  {
    a[j] := e;
    next := j + 1;
  }

  /** The loop of `path_simplify`: the kept elements are overwritten in place, `j` being how many there are. */
  method KeepAll(pathv: seq<string>, absolute: bool) returns (sanePathv: array<string>, j: nat)
    requires absolute || forall i | 0 <= i < |pathv| :: pathv[i] != ""
    ensures j <= sanePathv.Length && sanePathv[..j] == Keep(absolute, pathv)
  {
    sanePathv := new string[|pathv| + 1](_ => "");
    j := 0;
    var i, subroot := 0, 0;
    while i < |pathv|
      invariant 0 <= j <= i <= |pathv|
      invariant sanePathv[..j] == Keep(absolute, pathv[..i])
      invariant Counts(absolute, sanePathv[..j], subroot)
    {
      assert pathv[..i + 1][..i] == pathv[..i];
      j, subroot := KeepElement(sanePathv, j, subroot, absolute, pathv[i]);
      i := i + 1;
    }
    assert pathv[..i] == pathv;
  }

  /** `path_simplify` */
  method PathSimplify(path: string) returns (r: string)
    ensures r == Simplify(path)
  {
    var sane := PathSanitizeSlashes(path);
    var pathv := Split(sane);
    ElementsShape(path);
    var sanePathv, j := KeepAll(pathv, |pathv| > 1 && pathv[0] == "");
    r := JoinPath(sanePathv[..j]);
  }
}
