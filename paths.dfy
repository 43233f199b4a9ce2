/**
 * Unix path syntax as Rust's `std::path::Path` sees it: splitting a path
 * string at '/', turning the pieces into components, and taking the final
 * component (`Path::file_name`). Component names are plain strings.
 */
module Paths {
  import opened Wrappers

  /** A path component on Unix (Rust's `Component` without the Windows prefix). */
  datatype Component = RootDir | CurDir | ParentDir | Normal(name: string)

  /** A name that can appear as a `Normal` component. */
  predicate ValidName(n: string) {
    n != "" && n != "." && n != ".." && '/' !in n
  }

  predicate AllValid(names: seq<string>) {
    forall i :: 0 <= i < |names| ==> ValidName(names[i])
  }

  function Normals(names: seq<string>): (cs: seq<Component>)
    ensures |cs| == |names|
    ensures forall i :: 0 <= i < |names| ==> cs[i] == Normal(names[i])
  {
    seq(|names|, i requires 0 <= i < |names| => Normal(names[i]))
  }

  /** The pieces of `s` between its '/' separators; there is always at least one. */
  function Split(s: string): (pieces: seq<string>)
    ensures |pieces| >= 1
  {
    if s == [] then [[]]
    else
      var rest := Split(s[1..]);
      if s[0] == '/' then [[]] + rest
      else [[s[0]] + rest[0]] + rest[1..]
  }

  /** The pieces joined with '/' between them. */
  function Join(pieces: seq<string>): string
  {
    if pieces == [] then ""
    else if |pieces| == 1 then pieces[0]
    else pieces[0] + "/" + Join(pieces[1..])
  }

  /** No piece contains a separator. */
  lemma {:induction false} SplitPiecesHaveNoSeparator(s: string)
    ensures forall i :: 0 <= i < |Split(s)| ==> '/' !in Split(s)[i]
  {
    if s != [] {
      SplitPiecesHaveNoSeparator(s[1..]);
      var rest := Split(s[1..]);
      if s[0] != '/' {
        assert '/' !in [s[0]] + rest[0];
        assert forall i :: 1 <= i < |Split(s)| ==> Split(s)[i] == rest[i];
      } else {
        assert forall i :: 1 <= i < |Split(s)| ==> Split(s)[i] == rest[i - 1];
      }
    }
  }

  /** `Join` puts one separator between the first piece and the join of the rest. */
  lemma JoinCons(x: string, pieces: seq<string>)
    requires |pieces| >= 1
    ensures Join([x] + pieces) == x + "/" + Join(pieces)
  {
    assert ([x] + pieces)[1..] == pieces;
  }

  /** Gluing a character onto the first piece glues it onto the joined string. */
  lemma JoinGlue(c: char, first: string, more: seq<string>)
    ensures Join([[c] + first] + more) == [c] + Join([first] + more)
  {
    if more != [] {
      JoinCons([c] + first, more);
      JoinCons(first, more);
      var tail := Join(more);
      assert [c] + first + "/" + tail == [c] + (first + "/" + tail);
    }
  }

  lemma {:induction false} JoinSplit(s: string)
    ensures Join(Split(s)) == s
  {
    if s != [] {
      var rest := Split(s[1..]);
      JoinSplit(s[1..]);
      assert s == [s[0]] + s[1..];
      if s[0] == '/' {
        JoinCons([], rest);
      } else {
        assert rest == [rest[0]] + rest[1..];
        JoinGlue(s[0], rest[0], rest[1..]);
      }
    }
  }

  /** One unfolding of `Split` on a string with a known first character. */
  lemma SplitCons(c: char, t: string)
    ensures Split([c] + t)
         == if c == '/' then [[]] + Split(t) else [[c] + Split(t)[0]] + Split(t)[1..]
  {
    assert ([c] + t)[0] == c;
    assert ([c] + t)[1..] == t;
  }

  /** Gluing a first character onto the first piece commutes with appending more pieces. */
  lemma GlueHead(head: string, rest: seq<string>, more: seq<string>, r: seq<string>)
    requires |rest| >= 1 && r == rest + more
    ensures [head + r[0]] + r[1..] == ([head + rest[0]] + rest[1..]) + more
  {
    assert r[0] == rest[0];
    assert r[1..] == rest[1..] + more;
  }

  /** Taking the first character off the left operand of a '/'-join. */
  lemma SeparatedCons(a: string, b: string)
    requires a != []
    ensures a == [a[0]] + a[1..]
    ensures a + "/" + b == [a[0]] + (a[1..] + "/" + b)
  {
  }

  lemma {:induction false} SplitAppend(a: string, b: string)
    ensures Split(a + "/" + b) == Split(a) + Split(b)
  {
    if a == [] {
      SplitCons('/', b);
      assert a + "/" + b == ['/'] + b;
    } else {
      var c, t := a[0], a[1..];
      var whole := t + "/" + b;
      SeparatedCons(a, b);
      SplitAppend(t, b);
      SplitCons(c, whole);
      SplitCons(c, t);
      if c == '/' {
        assert [[]] + (Split(t) + Split(b)) == ([[]] + Split(t)) + Split(b);
      } else {
        GlueHead([c], Split(t), Split(b), Split(whole));
      }
    }
  }

  lemma {:induction false} SplitOfPiece(a: string)
    requires '/' !in a
    ensures Split(a) == [a]
  {
    if a != [] {
      assert '/' !in a[1..] by {
        forall k | 0 <= k < |a[1..]| ensures a[1..][k] != '/' { assert a[1..][k] == a[k + 1]; }
      }
      SplitOfPiece(a[1..]);
      assert a == [a[0]] + a[1..];
    }
  }

  lemma {:induction false} SplitJoin(pieces: seq<string>)
    requires |pieces| >= 1
    requires forall i :: 0 <= i < |pieces| ==> '/' !in pieces[i]
    ensures Split(Join(pieces)) == pieces
  {
    if |pieces| == 1 {
      SplitOfPiece(pieces[0]);
    } else {
      SplitJoin(pieces[1..]);
      SplitAppend(pieces[0], Join(pieces[1..]));
      SplitOfPiece(pieces[0]);
      assert pieces == [pieces[0]] + pieces[1..];
    }
  }

  /** How one piece between separators becomes zero or one component. */
  function ParsePiece(piece: string): seq<Component>
  {
    if piece == "" || piece == "." then []
    else if piece == ".." then [ParentDir]
    else [Normal(piece)]
  }

  function Parse(pieces: seq<string>): seq<Component>
  {
    if pieces == [] then [] else ParsePiece(pieces[0]) + Parse(pieces[1..])
  }

  /** Pieces without separators parse to normal components with valid names. */
  lemma {:induction false} ParseGivesValidNames(pieces: seq<string>)
    requires forall i :: 0 <= i < |pieces| ==> '/' !in pieces[i]
    ensures forall j :: 0 <= j < |Parse(pieces)| && Parse(pieces)[j].Normal? ==> ValidName(Parse(pieces)[j].name)
  {
    if pieces != [] {
      ParseGivesValidNames(pieces[1..]);
      var head: seq<Component>, tail: seq<Component> := ParsePiece(pieces[0]), Parse(pieces[1..]);
      assert Parse(pieces) == head + tail;
      forall j | 0 <= j < |head + tail| && (head + tail)[j].Normal?
        ensures ValidName((head + tail)[j].name)
      {
        if j >= |head| { assert (head + tail)[j] == tail[j - |head|]; }
      }
    }
  }

  lemma {:induction false} ParseAppend(xs: seq<string>, ys: seq<string>)
    ensures Parse(xs + ys) == Parse(xs) + Parse(ys)
  {
    if xs != [] {
      var zs := xs + ys;
      assert zs[0] == xs[0];
      assert zs[1..] == xs[1..] + ys;
      ParseAppend(xs[1..], ys);
      assert Parse(zs) == ParsePiece(xs[0]) + Parse(xs[1..] + ys);
      assert Parse(xs) == ParsePiece(xs[0]) + Parse(xs[1..]);
    } else {
      assert xs + ys == ys;
    }
  }

  lemma {:induction false} ParseNormals(names: seq<string>)
    requires AllValid(names)
    ensures Parse(names) == Normals(names)
  {
    if names != [] {
      ParseNormals(names[1..]);
      assert Normals(names) == [Normal(names[0])] + Normals(names[1..]);
    }
  }

  predicate HasRoot(p: string) {
    |p| > 0 && p[0] == '/'
  }

  /** A relative path that starts with the piece "." keeps it as a `CurDir` component. */
  predicate LeadingCurDir(p: string) {
    |p| > 0 && p[0] == '.' && (|p| == 1 || p[1] == '/')
  }

  /**
   * The components of `p`: a root for a leading '/', a `CurDir` for a
   * leading "." piece, then one component per piece, with empty and "."
   * pieces dropped (so repeated and trailing separators do not count).
   */
  function Components(p: string): seq<Component>
  {
    (if HasRoot(p) then [RootDir] else [])
    + (if LeadingCurDir(p) then [CurDir] else [])
    + Parse(Split(p))
  }

  /** Rust's `Path::file_name`: the final component when it is a normal name. */
  function FileName(p: string): Option<string>
  {
    var cs := Components(p);
    if |cs| > 0 && cs[|cs| - 1].Normal? then Some(cs[|cs| - 1].name) else None
  }

  /** Every normal component of a path is a valid name. */
  lemma ComponentsAreValid(p: string)
    ensures forall j :: 0 <= j < |Components(p)| && Components(p)[j].Normal? ==> ValidName(Components(p)[j].name)
  {
    SplitPiecesHaveNoSeparator(p);
    ParseGivesValidNames(Split(p));
    var prefix := (if HasRoot(p) then [RootDir] else []) + (if LeadingCurDir(p) then [CurDir] else []);
    var cs := Components(p);
    assert cs == prefix + Parse(Split(p));
    forall j | 0 <= j < |cs| && cs[j].Normal? ensures ValidName(cs[j].name) {
      if j >= |prefix| { assert cs[j] == Parse(Split(p))[j - |prefix|]; }
    }
  }

  /** A file name, when there is one, is a valid component name. */
  lemma FileNameIsValid(p: string)
    ensures FileName(p).Some? ==> ValidName(FileName(p).value)
  {
    ComponentsAreValid(p);
  }

  /** The components of the joined form of some valid names are exactly those names. */
  lemma ComponentsOfJoin(names: seq<string>)
    requires AllValid(names)
    ensures Components(Join(names)) == Normals(names)
  {
    if names == [] {
      assert Split("") == [""];
    } else {
      var p := Join(names);
      SplitJoin(names);
      ParseNormals(names);
      var first := names[0];
      assert p[..|first|] == first by {
        if |names| > 1 { assert p == first + "/" + Join(names[1..]); }
      }
      assert !HasRoot(p) by { assert p[0] == first[0]; }
      assert !LeadingCurDir(p) by {
        if |first| == 1 {
          assert first == [p[0]];
          assert |names| > 1 ==> p[1] == '/' by {
            if |names| > 1 { assert p == first + "/" + Join(names[1..]); }
          }
        } else {
          assert p[1] == first[1];
        }
      }
    }
  }

  lemma FileNameOfName(n: string)
    requires ValidName(n)
    ensures FileName(n) == Some(n)
  {
    SplitOfPiece(n);
    assert Parse([n]) == [Normal(n)] by {
      assert [n][1..] == [];
    }
    assert !HasRoot(n) by { assert n[0] in n; }
    assert !LeadingCurDir(n) by {
      if |n| > 1 { assert n[1] in n; }
      if |n| == 1 { assert n == [n[0]]; }
    }
    assert Components(n) == [Normal(n)];
  }

  /** Whatever comes before the last separator, a valid last piece is the file name. */
  lemma FileNameAfterSeparator(dir: string, n: string)
    requires ValidName(n)
    ensures FileName(dir + "/" + n) == Some(n)
  {
    var p := dir + "/" + n;
    SplitAppend(dir, n);
    SplitOfPiece(n);
    ParseAppend(Split(dir), [n]);
  }

  /** ".." itself, or a path ending in a ".." piece, has no file name. */
  lemma FileNameParentDir(dir: string)
    ensures FileName("..") == None
    ensures FileName(dir + "/..") == None
  {
    assert FileName("..") == None by {
      SplitOfPiece("..");
      assert Parse([".."]) == [ParentDir] by {
        assert [".."][1..] == [];
      }
      assert !LeadingCurDir("..");
      assert Components("..") == [ParentDir];
    }
    assert dir + "/.." == dir + "/" + "..";
    SplitAppend(dir, "..");
    SplitOfPiece("..");
    ParseAppend(Split(dir), [".."]);
    assert Parse([".."]) == [ParentDir] by {
      assert [".."][1..] == [];
    }
    var cs := Components(dir + "/..");
    assert cs[|cs| - 1] == ParentDir;
  }

  /** A trailing separator only adds an empty piece, which parses to nothing. */
  lemma ParseTrailingSeparator(p: string)
    ensures Parse(Split(p + "/")) == Parse(Split(p))
  {
    assert p + "/" == p + "/" + "";
    SplitAppend(p, "");
    assert Split("") == [""];
    ParseAppend(Split(p), [""]);
    assert Parse([""]) == [] by {
      assert [""][1..] == [];
    }
  }

  /** Trailing separators do not change the file name. */
  lemma FileNameTrailingSeparator(p: string)
    ensures FileName(p + "/") == FileName(p)
  {
    var q := p + "/";
    ParseTrailingSeparator(p);
    if p == "" {
      assert q == "/";
      assert Components(q) == [RootDir] + Parse(Split(p));
    } else {
      assert q[0] == p[0];
      assert |p| > 1 ==> q[1] == p[1];
      assert Components(q) == Components(p);
    }
  }

  /** The root directory and the current directory have no file name. */
  lemma FileNameOfRootAndCurDir()
    ensures FileName("/") == None
    ensures FileName(".") == None
    ensures FileName("") == None
  {
    SplitAppend("", "");
    assert Split("") == [""];
    SplitOfPiece(".");
  }
}
