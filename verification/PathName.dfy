/** Path names of the registry (combase/registry.cpp). */
module PathName {

  import opened Bytes
  import opened Errno

  /** DBUS_MAXIMUM_NAME_LENGTH. */
  const REG_MAX_NAME := 255
  const REG_MAX_PATH := 2048

  predicate NoSlash(s: string) {
    '/' !in s
  }

  /** The pieces between slashes, empty ones included. */
  function Split(s: string): (pieces: seq<string>)
    ensures pieces != []
    ensures forall i :: 0 <= i < |pieces| ==> NoSlash(pieces[i])
  {
    if s == "" then [""] else Prepend(s[0], Split(s[1..]))
  }

  /** A character in front: a slash ends an empty piece, any other belongs to the first piece. */
  function Prepend(c: char, pieces: seq<string>): (more: seq<string>)
    requires pieces != []
    ensures more != []
    ensures (forall i :: 0 <= i < |pieces| ==> NoSlash(pieces[i])) ==> forall i :: 0 <= i < |more| ==> NoSlash(more[i])
  {
    if c == '/' then [""] + pieces else [[c] + pieces[0]] + pieces[1..]
  }

  function NonEmpty(pieces: seq<string>): (names: seq<string>)
    ensures forall i :: 0 <= i < |names| ==> names[i] != "" && names[i] in pieces
  {
    if pieces == [] then []
    else (if pieces[0] == "" then [] else [pieces[0]]) + NonEmpty(pieces[1..])
  }

  function Segments(s: string): (names: seq<string>)
    ensures forall i :: 0 <= i < |names| ==> names[i] != "" && NoSlash(names[i])
  {
    NonEmpty(Split(s))
  }

  /** The root, if the path begins with a slash, and all nonempty pieces. */
  function Components(s: string): seq<string> {
    (if s != "" && s[0] == '/' then ["/"] else []) + Segments(s)
  }

  lemma {:induction false} SplitWithoutSlash(s: string)
    requires NoSlash(s)
    ensures Split(s) == [s]
  {
    if s != "" {
      assert NoSlash(s[1..]);
      SplitWithoutSlash(s[1..]);
      assert [s[0]] + s[1..] == s;
    }
  }

  lemma PrependAppend(c: char, x: seq<string>, y: seq<string>)
    requires x != []
    ensures Prepend(c, x + y) == Prepend(c, x) + y
  {
    hide NoSlash;
    if c == '/' {
      Assoc([""], x, y);
    } else {
      assert (x + y)[1..] == x[1..] + y;
      Assoc([[c] + x[0]], x[1..], y);
    }
  }

  lemma SplitHead(c: char, s: string)
    ensures Split([c] + s) == Prepend(c, Split(s))
  {
    assert ([c] + s)[1..] == s;
  }

  lemma {:induction false} SplitAtSlash(a: string, b: string)
    ensures Split(a + "/" + b) == Split(a) + Split(b)
  {
    if a == "" {
      assert a + "/" + b == ['/'] + b;
      SplitHead('/', b);
    } else {
      var c, rest := a[0], a[1..];
      assert a == [c] + rest;
      Assoc([c], rest, "/");
      Assoc([c], rest + "/", b);
      hide Prepend, Split;
      SplitAtSlash(rest, b);
      SplitHead(c, rest);
      SplitHead(c, rest + "/" + b);
      PrependAppend(c, Split(rest), Split(b));
    }
  }

  lemma {:induction false} NonEmptyAppend(a: seq<string>, b: seq<string>)
    ensures NonEmpty(a + b) == NonEmpty(a) + NonEmpty(b)
  {
    if a == [] {
      assert a + b == b;
    } else {
      assert (a + b)[1..] == a[1..] + b;
      NonEmptyAppend(a[1..], b);
    }
  }

  lemma NonEmptyOfOne(s: string)
    ensures NonEmpty([s]) == if s == "" then [] else [s]
  {
    assert [s][1..] == [];
  }

  /** Cutting a path at its last slash. */
  lemma CutAtLastSlash(s: string, pos: nat)
    requires pos < |s| && s[pos] == '/' && NoSlash(s[pos + 1..])
    ensures Segments(s) == Segments(s[..pos]) + if pos + 1 == |s| then [] else [s[pos + 1..]]
  {
    var a, b := s[..pos], s[pos + 1..];
    assert s == a + "/" + b;
    SplitAtSlash(a, b);
    SplitWithoutSlash(b);
    NonEmptyAppend(Split(a), Split(b));
    NonEmptyOfOne(b);
  }

  lemma NoSegments()
    ensures Segments("") == []
  {
    NonEmptyOfOne("");
  }

  lemma RootAlone()
    ensures Components("/") == ["/"]
  {
    CutAtLastSlash("/", 0);
    NoSegments();
    assert "/"[..0] == "";
  }

  /** One round of Namei, which has found its last slash at `pos`, or none. */
  lemma ComponentsStep(t: string, pos: int)
    requires t != "" && -1 <= pos < |t| && NoSlash(t[pos + 1..]) && (pos >= 0 ==> t[pos] == '/')
    ensures Components(t) ==
            if pos < 0 then [t]
            else if pos > 0 && pos + 1 == |t| then Components(t[..pos])
            else if |t| == 1 then ["/"]
            else Components(if pos > 0 then t[..pos] else t[..1]) + [t[pos + 1..]]
  {
    hide Split, NonEmpty;
    if pos < 0 {
      assert t[pos + 1..] == t;
      assert t[0] in t;
      SplitWithoutSlash(t);
      NonEmptyOfOne(t);
    } else {
      CutAtLastSlash(t, pos);
      if pos == 0 {
        assert t[..0] == "" && t[..1] == "/";
        RootAlone();
        NoSegments();
      }
    }
  }

  /** std::string::rfind of a slash, -1 for npos. */
  method RFind(s: string) returns (pos: int)
    ensures -1 <= pos < |s|
    ensures pos >= 0 ==> s[pos] == '/'
    ensures NoSlash(s[pos + 1..])
  {
    pos := |s| - 1;
    while pos >= 0 && s[pos] != '/'
      invariant -1 <= pos < |s| && NoSlash(s[pos + 1..])
    {
      assert s[pos..] == [s[pos]] + s[pos + 1..];
      pos := pos - 1;
    }
  }

  function Reverse(names: seq<string>): seq<string> {
    if names == [] then [] else Reverse(names[1..]) + [names[0]]
  }

  lemma {:induction false} ReverseSnoc(names: seq<string>, name: string)
    ensures Reverse(names + [name]) == [name] + Reverse(names)
  {
    if names == [] {
      assert [name][1..] == [];
    } else {
      assert (names + [name])[1..] == names[1..] + [name];
      ReverseSnoc(names[1..], name);
    }
  }

  lemma Pushed(front: seq<string>, name: string, names: seq<string>)
    ensures front + [name] + Reverse(names) == front + Reverse(names + [name])
    ensures [name] + Reverse(names) == Reverse(names + [name])
  {
    ReverseSnoc(names, name);
    Assoc(front, [name], Reverse(names));
  }

  /** Takes the path apart from its end. */
  method Namei(strPath: string) returns (ret: int, vecComponents: seq<string>)
    ensures ret == if 1 <= |strPath| <= REG_MAX_PATH then STATUS_SUCCESS else -EINVAL
    ensures ret == STATUS_SUCCESS ==> vecComponents == Components(strPath) && vecComponents != []
  {
    vecComponents := [];
    if |strPath| == 0 || |strPath| > REG_MAX_PATH {
      return -EINVAL, vecComponents;
    }
    ret := STATUS_SUCCESS;
    vecComponents := TakeApart(strPath);
    vecComponents := ReverseAll(vecComponents);
  }

  /** The components, last one first. */
  method TakeApart(strPath: string) returns (vecComponents: seq<string>)
    requires strPath != ""
    ensures Reverse(vecComponents) == Components(strPath) && vecComponents != []
  {
    hide Components, Reverse, NoSlash;
    var strTemp := strPath;
    vecComponents := [];
    NothingPushed(strPath);
    while |strTemp| > 0
      invariant strTemp == "" ==> vecComponents != []
      invariant strTemp != "" ==> Components(strPath) == Components(strTemp) + Reverse(vecComponents)
      invariant strTemp == "" ==> Components(strPath) == Reverse(vecComponents)
      decreases |strTemp|
    {
      var pos := RFind(strTemp);
      ComponentsStep(strTemp, pos);
      if pos < 0 {
        Pushed([], strTemp, vecComponents);
        vecComponents := vecComponents + [strTemp];
        strTemp := "";
        break;
      }
      if pos > 0 && pos + 1 == |strTemp| {
        // a repeated or trailing slash
        strTemp := strTemp[..pos];
        continue;
      } else if pos == 0 && |strTemp| == 1 {
        // the root
        Pushed([], "/", vecComponents);
        vecComponents := vecComponents + ["/"];
        strTemp := "";
        break;
      }
      var name, next := strTemp[pos + 1..], if pos > 0 then strTemp[..pos] else strTemp[..1];
      Pushed(Components(next), name, vecComponents);
      vecComponents := vecComponents + [name];
      strTemp := next;
    }
  }

  lemma NothingPushed(strPath: string)
    ensures Components(strPath) == Components(strPath) + Reverse([])
  {
  }

  method ReverseAll(v: seq<string>) returns (r: seq<string>)
    ensures r == Reverse(v) && |r| == |v|
  {
    r := [];
    var i := 0;
    while i < |v|
      invariant 0 <= i <= |v| && r == Reverse(v[..i]) && |r| == i
    {
      ReverseSnoc(v[..i], v[i]);
      assert v[..i + 1] == v[..i] + [v[i]];
      r := [v[i]] + r;
      i := i + 1;
    }
    assert v[..|v|] == v;
  }

  // ---------- Full paths ----------

  function Join(names: seq<string>): string {
    if names == [] then ""
    else if |names| == 1 then names[0]
    else names[0] + "/" + Join(names[1..])
  }

  /** The path from the root. */
  function FullPath(names: seq<string>): string {
    "/" + Join(names)
  }

  predicate OrdinaryName(name: string) {
    name != "" && NoSlash(name) && name != "." && name != ".."
  }

  predicate AllOrdinary(names: seq<string>) {
    forall i :: 0 <= i < |names| ==> OrdinaryName(names[i])
  }

  lemma {:induction false} SplitJoin(names: seq<string>)
    requires AllOrdinary(names) && names != []
    ensures Split(Join(names)) == names && NonEmpty(names) == names
  {
    SplitWithoutSlash(names[0]);
    if |names| == 1 {
      NonEmptyOfOne(names[0]);
      assert names == [names[0]];
    } else {
      SplitAtSlash(names[0], Join(names[1..]));
      SplitJoin(names[1..]);
      assert names == [names[0]] + names[1..];
    }
  }

  /** Namei takes a full path of ordinary names apart into the root and the names. */
  lemma ComponentsOfFullPath(names: seq<string>)
    requires AllOrdinary(names)
    ensures Components(FullPath(names)) == ["/"] + names
  {
    if names == [] {
      RootAlone();
      assert FullPath(names) == "/";
    } else {
      SplitAtSlash("", Join(names));
      assert "" + "/" + Join(names) == FullPath(names);
      SplitJoin(names);
      NonEmptyAppend([""], names);
      NonEmptyOfOne("");
    }
  }

  /** Names in front of any last one; of a last one that is not ordinary only its segments are left. */
  lemma {:induction false} SegmentsOfJoin(names: seq<string>, last: string)
    requires AllOrdinary(names)
    ensures Segments(Join(names + [last])) == names + Segments(last)
  {
    hide Split, NonEmpty;
    if names == [] {
      assert names + [last] == [last] && names + Segments(last) == Segments(last);
    } else {
      var first, more := names[0], names[1..];
      var joined := Join(more + [last]);
      assert (names + [last])[1..] == more + [last];
      assert Join(names + [last]) == first + "/" + joined;
      SplitAtSlash(first, joined);
      SplitWithoutSlash(first);
      NonEmptyAppend([first], Split(joined));
      NonEmptyOfOne(first);
      SegmentsOfJoin(more, last);
      HeadAndTail([], names);
      Assoc([first], more, Segments(last));
    }
  }

  lemma ComponentsOfLast(names: seq<string>, last: string)
    requires AllOrdinary(names)
    ensures Components(FullPath(names + [last])) == ["/"] + (names + Segments(last))
  {
    var joined := Join(names + [last]);
    SegmentsOfJoin(names, last);
    SplitAtSlash("", joined);
    assert "" + "/" + joined == FullPath(names + [last]);
    NonEmptyAppend([""], Split(joined));
    NonEmptyOfOne("");
  }

  // ---------- Where components lead ----------

  datatype Goal = Nowhere | At(names: seq<string>)

  /** The names from the root that the components lead to from `names`: a slash goes back to the root, two
      dots take the last name off, one dot stays, and any other component is the next name. */
  function Resolve(names: seq<string>, comps: seq<string>): Goal
    decreases |comps|
  {
    if comps == [] then At(names)
    else if comps[0] == "/" then Resolve([], comps[1..])
    else if comps[0] == "." then Resolve(names, comps[1..])
    else if comps[0] == ".." then
      if names == [] then Nowhere else Resolve(names[..|names| - 1], comps[1..])
    else Resolve(names + [comps[0]], comps[1..])
  }

  lemma ResolveFirst(names: seq<string>, comps: seq<string>, k: nat)
    requires comps != [] && k < |comps|
    ensures Resolve(names, comps[..1]).At? ==>
              Resolve(names, comps[..k + 1]) == Resolve(Resolve(names, comps[..1]).names, comps[1..][..k])
  {
    assert comps[..1][0] == comps[0] == comps[..k + 1][0];
    assert comps[..1][1..] == [] && comps[..k + 1][1..] == comps[1..][..k];
  }

  /** Dots alone. */
  lemma DotComponents()
    ensures Components(".") == ["."] && Components("..") == [".."]
  {
    SplitWithoutSlash(".");
    NonEmptyOfOne(".");
    SplitWithoutSlash("..");
    NonEmptyOfOne("..");
  }

  // ---------- Paths of one component ----------

  /** A name and any number of slashes behind it. */
  predicate NameAndSlashes(s: string) {
    && s != "" && s[0] != '/'
    && forall i, j :: 0 <= i < j < |s| && s[i] == '/' ==> s[j] == '/'
  }

  lemma HasSegment(s: string)
    requires s != "" && s[0] != '/'
    ensures Segments(s) != []
  {
  }

  lemma LastSlash(s: string) returns (pos: int)
    ensures -1 <= pos < |s|
    ensures pos >= 0 ==> s[pos] == '/'
    ensures NoSlash(s[pos + 1..])
  {
    pos := |s| - 1;
    while pos >= 0 && s[pos] != '/'
      invariant -1 <= pos < |s| && NoSlash(s[pos + 1..])
    {
      assert s[pos..] == [s[pos]] + s[pos + 1..];
      pos := pos - 1;
    }
  }

  lemma {:induction false} OneComponent(s: string)
    requires s != ""
    ensures |Components(s)| == 1 && Components(s)[0] != "/" <==> NameAndSlashes(s)
    decreases |s|
  {
    if s[0] != '/' {
      var pos := LastSlash(s);
      if pos < 0 {
        assert s[0..] == s;
        SplitWithoutSlash(s);
        NonEmptyOfOne(s);
      } else {
        CutAtLastSlash(s, pos);
        if pos + 1 == |s| {
          OneComponent(s[..pos]);
          assert NameAndSlashes(s) <==> NameAndSlashes(s[..pos]);
        } else {
          HasSegment(s[..pos]);
          assert s[|s| - 1] in s[pos + 1..] by {
            assert s[|s| - 1] == s[pos + 1..][|s| - pos - 2];
          }
        }
      }
    }
  }
}
