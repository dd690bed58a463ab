/** `remove_dot_segments` of url.cpp: the loop over strings refines a stack of path segments
    (section 5.2.4 of RFC 3986). */
module DotSegments {
  import opened Strings

  // An output path: a first segment without a slash, then segments that each follow one.
  datatype Stack = Stack(first: string, segs: seq<string>)

  const EMPTY_STACK := Stack("", [])

  function Join(segs: seq<string>): string {
    if segs == [] then "" else Join(segs[..|segs| - 1]) + "/" + segs[|segs| - 1]
  }

  function Text(st: Stack): string {
    st.first + Join(st.segs)
  }

  function PushSeg(st: Stack, seg: string): Stack {
    st.(segs := st.segs + [seg])
  }

  function PopSeg(st: Stack): Stack {
    if st.segs == [] then EMPTY_STACK else st.(segs := st.segs[..|st.segs| - 1])
  }

  // What one segment does; a dot segment at the end leaves an empty segment behind.
  function Apply(st: Stack, seg: string, last: bool): Stack {
    if seg == "." then (if last then PushSeg(st, "") else st)
    else if seg == ".." then (if last then PushSeg(PopSeg(st), "") else PopSeg(st))
    else PushSeg(st, seg)
  }

  // The path "/" + tail, on top of st.
  function AfterSlash(st: Stack, tail: string): Stack
    decreases |tail|
  {
    var i := Find(tail, '/');
    if i == |tail| then Apply(st, tail, true)
    else AfterSlash(Apply(st, tail[..i], false), tail[i + 1..])
  }

  predicate IsDot(seg: string) { seg == "." || seg == ".." }

  // A whole path: dot segments at the front of a relative path disappear.
  function Resolve(path: string): Stack
    decreases |path|
  {
    if path == "" then EMPTY_STACK
    else if path[0] == '/' then AfterSlash(EMPTY_STACK, path[1..])
    else
      var i := Find(path, '/');
      if IsDot(path[..i]) then
        (if i == |path| then EMPTY_STACK else Resolve(path[i + 1..]))
      else if i == |path| then Stack(path, [])
      else AfterSlash(Stack(path[..i], []), path[i + 1..])
  }

  // ---------- the source's loop ----------

  // The value the rest of the loop adds to what is in the output.
  function Pending(st: Stack, input: string): Stack {
    if input == "" then st
    else if input[0] == '/' then AfterSlash(st, input[1..])
    else Resolve(input)
  }

  ghost predicate NoSlash(st: Stack) {
    '/' !in st.first && forall i | 0 <= i < |st.segs| :: '/' !in st.segs[i]
  }

  method RemoveDotSegments(path: string) returns (output: string)
    ensures output == Text(Resolve(path))
  {
    hide Pending, Resolve, AfterSlash, Text, NoSlash, PopSeg, StartsWith;
    StartOf(path);
    output := "";
    var input := path;
    ghost var st := EMPTY_STACK;
    while input != ""
      invariant output == Text(st) && NoSlash(st)
      invariant Pending(st, input) == Resolve(path)
      invariant input != "" && input[0] != '/' ==> st == EMPTY_STACK
      decreases |input|, if input == "/" then 0 else 1
    {
      if StartsWith(input, "../") {
        FrontDots(input, 2);
        input := input[3..];
      } else if StartsWith(input, "./") {
        FrontDots(input, 1);
        input := input[2..];
      } else if StartsWith(input, "/./") {
        DotSegment(st, input);
        input := input[2..];
      } else if input == "/." {
        LastDot(st);
        input := "/";
      } else if StartsWith(input, "/../") || input == "/.." {
        if StartsWith(input, "/../") {
          DotDotSegment(st, input);
          input := input[3..];
        } else {
          LastDotDot(st);
          input := "/";
        }
        output := DropLast(output, st);
        st := PopSeg(st);
      } else if input == "." || input == ".." {
        OnlyDots(input);
        input := "";
      } else {
        var next;
        if input[0] == '/' {
          next := Find(input[1..], '/') + 1;
          CopyRooted(st, input, next);
        } else {
          next := Find(input, '/');
          CopyFirst(input, next);
        }
        output := output + input[..next];
        st := if input[0] == '/' then PushSeg(st, input[1..next]) else Stack(input[..next], []);
        input := input[next..];
      }
    }
    Finished(st);
  }

  // Cut the output before its last slash.
  method DropLast(output: string, ghost st: Stack) returns (r: string)
    requires output == Text(st) && NoSlash(st)
    ensures r == Text(PopSeg(st)) && NoSlash(PopSeg(st))
  {
    r := output;
    if output != "" {
      LastSlash(st);
      var lastSlash := RFind(output, '/');
      if lastSlash == |output| {
        r := "";
      } else {
        r := output[..lastSlash];
      }
    } else {
      LastSlash(st);
    }
  }

  lemma StartOf(path: string)
    ensures Pending(EMPTY_STACK, path) == Resolve(path)
    ensures Text(EMPTY_STACK) == "" && NoSlash(EMPTY_STACK)
  {
  }

  lemma Finished(st: Stack)
    ensures Pending(st, "") == st
  {
  }

  lemma FrontDots(input: string, k: nat)
    requires k == 1 || k == 2
    requires StartsWith(input, if k == 1 then "./" else "../")
    ensures k + 1 <= |input| && input[0] != '/'
    ensures Pending(EMPTY_STACK, input) == Pending(EMPTY_STACK, input[k + 1..])
  {
    FindIs(input, '/', k);
    assert input[..k] == if k == 1 then "." else "..";
    assert Resolve(input) == Resolve(input[k + 1..]);
    StartOf(input);
    StartOf(input[k + 1..]);
  }

  lemma OnlyDots(input: string)
    requires IsDot(input)
    ensures Pending(EMPTY_STACK, input) == Pending(EMPTY_STACK, "")
  {
    FindIs(input, '/', |input|);
  }

  // The segment after the first slash, when another slash follows it.
  lemma FirstSegment(st: Stack, input: string, seg: string)
    requires StartsWith(input, "/" + seg + "/") && '/' !in seg
    ensures |seg| + 2 <= |input| && input[|seg| + 1] == '/'
    ensures Pending(st, input) == Pending(Apply(st, seg, false), input[|seg| + 1..])
  {
    var p := "/" + seg + "/";
    assert input[..|p|] == p;
    var tail := input[1..];
    forall k | 0 <= k < |seg|
      ensures tail[k] == seg[k]
    {
      assert input[..|p|][k + 1] == p[k + 1];
    }
    assert tail[|seg|] == '/' by { assert input[..|p|][|seg| + 1] == p[|seg| + 1]; }
    FindIs(tail, '/', |seg|);
    assert tail[..|seg|] == seg;
    assert tail[|seg| + 1..] == input[|seg| + 1..][1..];
  }

  lemma DotSegment(st: Stack, input: string)
    requires StartsWith(input, "/./")
    ensures 3 <= |input| && input[2] == '/' && Pending(st, input) == Pending(st, input[2..])
  {
    assert "/" + "." + "/" == "/./";
    FirstSegment(st, input, ".");
  }

  lemma DotDotSegment(st: Stack, input: string)
    requires StartsWith(input, "/../")
    ensures 4 <= |input| && input[3] == '/' && Pending(st, input) == Pending(PopSeg(st), input[3..])
  {
    assert "/" + ".." + "/" == "/../";
    FirstSegment(st, input, "..");
  }

  lemma LastDot(st: Stack)
    ensures Pending(st, "/.") == Pending(st, "/")
  {
    assert "/."[1..] == "." && "/"[1..] == "";
  }

  lemma LastDotDot(st: Stack)
    ensures Pending(st, "/..") == Pending(PopSeg(st), "/")
  {
    assert "/.."[1..] == ".." && "/"[1..] == "";
  }

  lemma TextPush(st: Stack, seg: string)
    requires NoSlash(st) && '/' !in seg
    ensures Text(PushSeg(st, seg)) == Text(st) + ("/" + seg) && NoSlash(PushSeg(st, seg))
  {
    assert PushSeg(st, seg).segs[..|st.segs|] == st.segs;
  }

  // What passes the tests for dot segments is not one.
  lemma NotDots(input: string, from: nat, next: nat)
    requires from <= next <= |input| && (next < |input| ==> input[next] == '/')
    requires var p := input[..from];
             !StartsWith(input, p + "./") && input != p + "." && !StartsWith(input, p + "../") && input != p + ".."
    ensures !IsDot(input[from..next])
  {
    var p, seg := input[..from], input[from..next];
    assert input[..next] == p + seg;
    if next < |input| {
      assert input[..next + 1] == p + (seg + "/");
      assert "." + "/" == "./" && ".." + "/" == "../";
    } else {
      assert input == p + seg;
    }
  }

  lemma PendingRooted(st: Stack, input: string, next: nat)
    requires input != "" && input[0] == '/' && next == Find(input[1..], '/') + 1
    requires !IsDot(input[1..next])
    ensures Pending(st, input) == Pending(PushSeg(st, input[1..next]), input[next..])
    ensures next < |input| ==> input[next] == '/'
    ensures '/' !in input[1..next]
  {
    var tail, seg := input[1..], input[1..next];
    assert seg == tail[..next - 1];
    if next < |input| {
      assert input[next..][1..] == tail[next..];
    } else {
      assert input[next..] == "" && seg == tail;
    }
  }

  lemma CopyRooted(st: Stack, input: string, next: nat)
    requires input != "" && input[0] == '/' && next == Find(input[1..], '/') + 1
    requires !StartsWith(input, "/./") && input != "/." && !StartsWith(input, "/../") && input != "/.."
    requires NoSlash(st)
    ensures var st' := PushSeg(st, input[1..next]);
            && Pending(st, input) == Pending(st', input[next..])
            && Text(st') == Text(st) + input[..next] && NoSlash(st')
            && (next < |input| ==> input[next] == '/')
  {
    hide Pending, Text, NoSlash, PushSeg, StartsWith;
    assert input[..1] == "/" && "/" + "./" == "/./" && "/" + "../" == "/../" && "/" + "." == "/." && "/" + ".." == "/..";
    NotDots(input, 1, next);
    PendingRooted(st, input, next);
    TextPush(st, input[1..next]);
    assert input[..next] == "/" + input[1..next];
  }

  lemma PendingFirst(input: string, next: nat)
    requires input != "" && input[0] != '/' && next == Find(input, '/') && !IsDot(input[..next])
    ensures Pending(EMPTY_STACK, input) == Pending(Stack(input[..next], []), input[next..])
  {
    hide AfterSlash;
    if next < |input| {
      assert input[next..][1..] == input[next + 1..];
    } else {
      assert input[next..] == "" && input[..next] == input;
    }
  }

  lemma CopyFirst(input: string, next: nat)
    requires input != "" && input[0] != '/' && next == Find(input, '/') && !IsDot(input)
    requires !StartsWith(input, "./") && !StartsWith(input, "../")
    ensures var st := Stack(input[..next], []);
            && Pending(EMPTY_STACK, input) == Pending(st, input[next..])
            && Text(st) == Text(EMPTY_STACK) + input[..next] && NoSlash(st)
            && (next < |input| ==> input[next] == '/') && next > 0
  {
    hide StartsWith, Pending, IsDot;
    FirstNotDots(input, next);
    PendingFirst(input, next);
  }

  lemma FirstNotDots(input: string, next: nat)
    requires next <= |input| && (next < |input| ==> input[next] == '/') && !IsDot(input)
    requires !StartsWith(input, "./") && !StartsWith(input, "../")
    ensures !IsDot(input[..next])
  {
    var p := input[..0];
    assert p + "./" == "./" && p + "../" == "../" && p + "." == "." && p + ".." == "..";
    NotDots(input, 0, next);
    assert input[0..next] == input[..next];
  }

  lemma LastSlash(st: Stack)
    requires NoSlash(st)
    ensures NoSlash(PopSeg(st))
    ensures var out := Text(st); var i := RFind(out, '/');
            Text(PopSeg(st)) == if i == |out| then "" else out[..i]
  {
    var out := Text(st);
    if st.segs == [] {
    } else {
      var n := |st.segs| - 1;
      var before := Text(PopSeg(st));
      assert out == before + "/" + st.segs[n];
      var i := RFind(out, '/');
      assert out[|before|] == '/';
      assert forall k | |before| < k < |out| :: out[k] == st.segs[n][k - |before| - 1];
      assert i == |before|;
    }
  }

  // ---------- what the result is ----------

  // No segment is a dot segment or holds a slash.
  ghost predicate Clean(st: Stack) {
    NoSlash(st) && !IsDot(st.first) && forall i | 0 <= i < |st.segs| :: !IsDot(st.segs[i])
  }

  lemma PushKeeps(st: Stack, seg: string)
    requires Clean(st) && '/' !in seg && !IsDot(seg)
    ensures Clean(PushSeg(st, seg)) && |Text(PushSeg(st, seg))| == |Text(st)| + 1 + |seg|
  {
    hide Text, IsDot;
    TextPush(st, seg);
  }

  lemma PopKeeps(st: Stack)
    requires Clean(st)
    ensures Clean(PopSeg(st)) && |Text(PopSeg(st))| <= |Text(st)|
  {
    hide Text;
    LastSlash(st);
  }

  lemma ApplyKeeps(st: Stack, seg: string, last: bool)
    requires Clean(st) && '/' !in seg
    ensures Clean(Apply(st, seg, last))
    ensures |Text(Apply(st, seg, last))| <= |Text(st)| + 1 + |seg|
    ensures last ==> Apply(st, seg, last).segs != []
  {
    hide Text, Clean, PopSeg;
    PopKeeps(st);
    EmptySeg();
    if IsDot(seg) {
      PushKeeps(st, "");
      PushKeeps(PopSeg(st), "");
    } else {
      PushKeeps(st, seg);
    }
  }

  lemma {:induction false} AfterSlashKeeps(st: Stack, tail: string)
    requires Clean(st)
    ensures Clean(AfterSlash(st, tail)) && AfterSlash(st, tail).segs != []
    ensures |Text(AfterSlash(st, tail))| <= |Text(st)| + 1 + |tail|
    decreases |tail|
  {
    hide Clean, Text, Apply;
    var i := Find(tail, '/');
    if i == |tail| {
      ApplyKeeps(st, tail, true);
    } else {
      ApplyKeeps(st, tail[..i], false);
      AfterSlashKeeps(Apply(st, tail[..i], false), tail[i + 1..]);
    }
  }

  lemma {:induction false} AfterSlashFirst(st: Stack, tail: string)
    requires st.first == ""
    ensures AfterSlash(st, tail).first == ""
    decreases |tail|
  {
    var i := Find(tail, '/');
    if i < |tail| { AfterSlashFirst(Apply(st, tail[..i], false), tail[i + 1..]); }
  }

  // The result has no dot segments, is no longer than the input, and is rooted if the input is.
  lemma {:induction false} ResolveKeeps(path: string)
    ensures Clean(Resolve(path))
    ensures |Text(Resolve(path))| <= |path|
    ensures path != "" && path[0] == '/' ==> Text(Resolve(path)) != "" && Text(Resolve(path))[0] == '/'
    ensures path == "" ==> Resolve(path) == EMPTY_STACK
    decreases |path|
  {
    hide AfterSlash;
    if path != "" {
      if path[0] == '/' {
        AfterSlashKeeps(EMPTY_STACK, path[1..]);
        AfterSlashFirst(EMPTY_STACK, path[1..]);
        JoinFront(Resolve(path).segs);
      } else {
        var i := Find(path, '/');
        if IsDot(path[..i]) {
          if i < |path| { ResolveKeeps(path[i + 1..]); }
        } else if i < |path| {
          AfterSlashKeeps(Stack(path[..i], []), path[i + 1..]);
        }
      }
    }
  }

  lemma {:induction false} JoinFront(segs: seq<string>)
    requires segs != []
    ensures Join(segs) == "/" + segs[0] + Join(segs[1..])
  {
    if |segs| > 1 {
      var n := |segs| - 1;
      JoinFront(segs[..n]);
      assert segs[..n][1..] == segs[1..][..n - 1];
      assert segs[1..][n - 1] == segs[n];
    } else {
      assert segs[..0] == [] && segs[1..] == [];
    }
  }

  lemma JoinNone()
    ensures Join([]) == ""
  {
  }

  lemma LastOne(st: Stack, seg: string)
    requires '/' !in seg && !IsDot(seg)
    ensures AfterSlash(st, seg) == PushSeg(st, seg)
  {
    FindIs(seg, '/', |seg|);
  }

  lemma OneMore(st: Stack, seg: string, rest: string)
    requires '/' !in seg && !IsDot(seg) && rest != "" && rest[0] == '/'
    ensures AfterSlash(st, seg + rest) == AfterSlash(PushSeg(st, seg), rest[1..])
  {
    var tail := seg + rest;
    FindIs(tail, '/', |seg|);
    assert tail[..|seg|] == seg && tail[|seg| + 1..] == rest[1..];
  }

  // Clean segments are all kept.
  lemma {:induction false} AfterSlashClean(st: Stack, segs: seq<string>)
    requires segs != []
    requires forall i | 0 <= i < |segs| :: '/' !in segs[i] && !IsDot(segs[i])
    ensures Join(segs) != "" && AfterSlash(st, Join(segs)[1..]) == st.(segs := st.segs + segs)
    decreases |segs|
  {
    hide Join, AfterSlash;
    JoinFront(segs);
    var seg, rest := segs[0], Join(segs[1..]);
    var tail := Join(segs)[1..];
    assert tail == seg + rest;
    if segs[1..] == [] {
      JoinNone();
      assert tail == seg;
      LastOne(st, seg);
      assert st.segs + segs == st.segs + [seg];
    } else {
      JoinFront(segs[1..]);
      OneMore(st, seg, rest);
      AfterSlashClean(PushSeg(st, seg), segs[1..]);
      assert (st.segs + [seg]) + segs[1..] == st.segs + segs;
    }
  }

  // ---------- what dot segments do ----------

  predicate IsPlain(seg: string) { '/' !in seg && !IsDot(seg) }

  // One segment and what follows its slash.
  lemma SegmentFirst(st: Stack, seg: string, tail: string)
    requires '/' !in seg
    ensures AfterSlash(st, seg + ("/" + tail)) == AfterSlash(Apply(st, seg, false), tail)
  {
    hide Find, Apply;
    var s := seg + ("/" + tail);
    assert forall k | 0 <= k < |seg| :: s[k] == seg[k];
    FindIs(s, '/', |seg|);
    assert s[..|seg|] == seg && s[|seg| + 1..] == tail;
  }

  // A segment followed by ".." is as if it were not there.
  lemma UpAfterSegment(st: Stack, seg: string, tail: string)
    requires IsPlain(seg)
    ensures AfterSlash(st, seg + ("/" + (".." + ("/" + tail)))) == AfterSlash(st, tail)
  {
    hide AfterSlash;
    SegmentFirst(st, seg, ".." + ("/" + tail));
    SegmentFirst(PushSeg(st, seg), "..", tail);
    assert PopSeg(PushSeg(st, seg)) == st;
  }

  lemma {:induction false} SameAfter(st: Stack, p: string, x: string, y: string)
    requires forall top: Stack :: AfterSlash(top, x) == AfterSlash(top, y)
    ensures AfterSlash(st, p + ("/" + x)) == AfterSlash(st, p + ("/" + y))
    decreases |p|
  {
    hide AfterSlash, Apply, Find;
    var i := Find(p, '/');
    if i == |p| {
      SegmentFirst(st, p, x);
      SegmentFirst(st, p, y);
    } else {
      var seg, rest := p[..i], p[i + 1..];
      SegmentFirst(st, seg, rest + ("/" + x));
      SegmentFirst(st, seg, rest + ("/" + y));
      SplitAtSlash(p, i, x);
      SplitAtSlash(p, i, y);
      SameAfter(Apply(st, seg, false), rest, x, y);
    }
  }

  lemma SplitAtSlash(p: string, i: nat, x: string)
    requires i < |p| && p[i] == '/'
    ensures p + ("/" + x) == p[..i] + ("/" + (p[i + 1..] + ("/" + x)))
  {
    assert p == p[..i] + ("/" + p[i + 1..]);
  }

  function Here(tail: string): string { "." + ("/" + tail) }

  function UpFrom(seg: string, tail: string): string { seg + ("/" + (".." + ("/" + tail))) }

  // Anywhere in a rooted path, "./" and a segment with the "../" after it can be left out.
  lemma DotSegmentsVanish(p: string, seg: string, tail: string)
    requires IsPlain(seg)
    ensures Resolve("/" + (p + ("/" + Here(tail)))) == Resolve("/" + (p + ("/" + tail)))
    ensures Resolve("/" + (p + ("/" + UpFrom(seg, tail)))) == Resolve("/" + (p + ("/" + tail)))
  {
    hide AfterSlash;
    forall top: Stack
      ensures AfterSlash(top, Here(tail)) == AfterSlash(top, tail)
      ensures AfterSlash(top, UpFrom(seg, tail)) == AfterSlash(top, tail)
    {
      SegmentFirst(top, ".", tail);
      UpAfterSegment(top, seg, tail);
    }
    SameAfter(EMPTY_STACK, p, Here(tail), tail);
    SameAfter(EMPTY_STACK, p, UpFrom(seg, tail), tail);
    RootedIs(p + ("/" + Here(tail)));
    RootedIs(p + ("/" + UpFrom(seg, tail)));
    RootedIs(p + ("/" + tail));
  }

  // At the end of a path, "." and a segment with the ".." after it leave the slash before them.
  lemma DotSegmentsAtEnd(p: string, seg: string)
    requires IsPlain(seg)
    ensures Resolve("/" + (p + ("/" + "."))) == Resolve("/" + (p + ("/" + "")))
    ensures Resolve("/" + (p + ("/" + (seg + ("/" + ".."))))) == Resolve("/" + (p + ("/" + "")))
  {
    hide AfterSlash;
    forall top: Stack
      ensures AfterSlash(top, ".") == AfterSlash(top, "")
      ensures AfterSlash(top, seg + ("/" + "..")) == AfterSlash(top, "")
    {
      LastSegment(top, ".");
      LastSegment(top, "");
      SegmentFirst(top, seg, "..");
      LastSegment(PushSeg(top, seg), "..");
      assert PopSeg(PushSeg(top, seg)) == top;
    }
    SameAfter(EMPTY_STACK, p, ".", "");
    SameAfter(EMPTY_STACK, p, seg + ("/" + ".."), "");
    RootedIs(p + ("/" + "."));
    RootedIs(p + ("/" + (seg + ("/" + ".."))));
    RootedIs(p + ("/" + ""));
  }

  lemma LastSegment(st: Stack, seg: string)
    requires '/' !in seg
    ensures AfterSlash(st, seg) == Apply(st, seg, true)
  {
    hide Find, Apply;
    FindIs(seg, '/', |seg|);
  }

  // At the front of a relative path they disappear.
  lemma DotSegmentsInFront(tail: string)
    ensures Resolve("./" + tail) == Resolve(tail) && Resolve("../" + tail) == Resolve(tail)
    ensures Resolve(".") == EMPTY_STACK && Resolve("..") == EMPTY_STACK
  {
    hide AfterSlash, Find;
    var a, b := "./" + tail, "../" + tail;
    FindIs(a, '/', 1);
    FindIs(b, '/', 2);
    assert a[..1] == "." && a[2..] == tail && b[..2] == ".." && b[3..] == tail;
    FindIs(".", '/', 1);
    FindIs("..", '/', 2);
    assert "."[..1] == "." && ".."[..2] == "..";
  }

  lemma RootedIs(tail: string)
    ensures Resolve("/" + tail) == AfterSlash(EMPTY_STACK, tail)
  {
    hide AfterSlash;
    assert ("/" + tail)[1..] == tail;
  }

  // Above the root there is nothing: "/.." is the root itself.
  lemma RootHasNoParent(tail: string)
    ensures Resolve("/" + (".." + ("/" + tail))) == Resolve("/" + tail)
  {
    hide AfterSlash;
    RootedIs(".." + ("/" + tail));
    RootedIs(tail);
    SegmentFirst(EMPTY_STACK, "..", tail);
  }

  // A clean path is left alone, so doing it twice changes nothing.
  lemma ResolveClean(st: Stack)
    requires Clean(st)
    ensures Resolve(Text(st)) == st
  {
    var path := Text(st);
    if st.segs == [] {
      assert path == st.first;
      FindIs(path, '/', |path|);
    } else {
      JoinFront(st.segs);
      if st.first == "" {
        assert path == Join(st.segs);
        AfterSlashClean(EMPTY_STACK, st.segs);
      } else {
        FindIs(path, '/', |st.first|);
        assert path[..|st.first|] == st.first && path[|st.first| + 1..] == Join(st.segs)[1..];
        AfterSlashClean(Stack(st.first, []), st.segs);
      }
    }
  }

  lemma Idempotent(path: string)
    ensures Resolve(Text(Resolve(path))) == Resolve(path)
  {
    ResolveKeeps(path);
    ResolveClean(Resolve(path));
  }

  // Every character of the result comes from the input.
  lemma {:induction false} AfterSlashChars(st: Stack, tail: string, c: char)
    requires c !in Text(st) && c !in tail && c != '/' && NoSlash(st)
    ensures c !in Text(AfterSlash(st, tail))
    decreases |tail|
  {
    var i := Find(tail, '/');
    ApplyChars(st, tail[..i], i == |tail|, c);
    if i < |tail| {
      AfterSlashChars(Apply(st, tail[..i], false), tail[i + 1..], c);
    } else {
      assert tail[..i] == tail;
    }
  }

  lemma ApplyChars(st: Stack, seg: string, last: bool, c: char)
    requires c !in Text(st) && c !in seg && c != '/' && NoSlash(st) && '/' !in seg
    ensures c !in Text(Apply(st, seg, last)) && NoSlash(Apply(st, seg, last))
  {
    hide Text, NoSlash;
    TextPush(st, seg);
    EmptySeg();
    TextPush(st, "");
    LastSlash(st);
    TextPush(PopSeg(st), "");
  }

  lemma EmptySeg()
    ensures '/' !in ""
  {
  }

  lemma {:induction false} ResolveChars(path: string, c: char)
    requires c !in path && c != '/'
    ensures c !in Text(Resolve(path))
    decreases |path|
  {
    hide AfterSlash;
    if path != "" {
      if path[0] == '/' {
        AfterSlashChars(EMPTY_STACK, path[1..], c);
      } else {
        var i := Find(path, '/');
        if IsDot(path[..i]) {
          if i < |path| { ResolveChars(path[i + 1..], c); }
        } else if i < |path| {
          AfterSlashChars(Stack(path[..i], []), path[i + 1..], c);
        }
      }
    }
  }
}
