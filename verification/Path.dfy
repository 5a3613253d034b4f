/** `Clean`: normalises a path in one pass, writing into a buffer that is allocated only when the result
    first differs from the input. */
module Path {
  import opened Basics
  import opened PathSpec
  import Utf8

  /** The text of a path of the given components, empty for none. */
  function Body(rooted: bool, st: seq<Text>): Text {
    (if rooted then [SLASH] else []) + Join(st)
  }

  lemma BodyPush(rooted: bool, st: seq<Text>, c: Text)
    ensures Body(rooted, st + [c]) == Body(rooted, st) + (if st == [] then [] else [SLASH]) + c
  {
    assert (st + [c])[..|st|] == st;
  }

  lemma BodyStart(rooted: bool, st: seq<Text>)
    requires forall i | 0 <= i < |st| :: st[i] != []
    ensures |Body(rooted, st)| == (if rooted then 1 else 0) <==> st == []
  {
    if st != [] {
      JoinStart(st);
    }
  }

  /** The parts of `Cleaning`; see `Unit` in Basics. */
  datatype Aspect = Output | Dots | Rest | Room

  ghost predicate CleaningIn(a: Aspect, path: Text, r: nat, text: Text, dotdot: nat, st: seq<Text>, ups: nat) {
    && (a.Output? ==> text == Body(Rooted(path), st) && Normal(Rooted(path), st, ups))
    && (a.Dots? ==> ups <= |st| && dotdot == |Body(Rooted(path), st[..ups])|)
    && (a.Rest? ==> r <= |path| && Fold(Rooted(path), st, Components(path[r..])) == Stack(path))
    && (a.Room? ==> |text| <= r <= |path| && (st != [] && r < |path| && path[r] != SLASH ==> |text| < r))
  }

  /** The output is the text of the components kept so far, `dotdot` the length of its ".." part, what is
      left to read leads from there to the result, and the output never overtakes the input. */
  ghost predicate Cleaning(path: Text, r: nat, text: Text, dotdot: nat, st: seq<Text>, ups: nat) {
    forall a: Aspect :: CleaningIn(a, path, r, text, dotdot, st, ups)
  }

  /** Reading the next component `c`, which a slash or the end follows. */
  lemma ReadComponent(rooted: bool, st: seq<Text>, c: Text, t: Text)
    requires SLASH !in c && (t == [] || t[0] == SLASH)
    ensures Fold(rooted, st, Components(c + t)) == Fold(rooted, Apply(rooted, st, c), Components(t))
  {
    if t == [] {
      assert c + t == c;
      ComponentsSingle(c);
      ComponentsSingle([]);
      FoldOne(rooted, st, c);
      FoldOne(rooted, Apply(rooted, st, c), []);
    } else {
      var rest := t[1..];
      assert t == [] + [SLASH] + rest;
      assert c + t == c + [SLASH] + rest;
      ComponentsCut(c, rest);
      ComponentsCut([], rest);
      FoldCons(rooted, st, c, Components(rest));
      FoldCons(rooted, Apply(rooted, st, c), [], Components(rest));
    }
  }

  lemma ReadSlash(rooted: bool, st: seq<Text>, s: Text)
    requires s != [] && s[0] == SLASH
    ensures Fold(rooted, st, Components(s)) == Fold(rooted, st, Components(s[1..]))
  {
    assert s == [] + [SLASH] + s[1..];
    ComponentsCut([], s[1..]);
    FoldCons(rooted, st, [], Components(s[1..]));
  }

  lemma CleaningStart(path: Text)
    requires path != []
    ensures var r := if Rooted(path) then 1 else 0;
            Cleaning(path, r, path[..r], r, [], 0)
  {
    if Rooted(path) {
      ReadSlash(true, [], path);
    } else {
      assert path[0..] == path;
    }
  }

  lemma CleaningSlash(path: Text, r: nat, text: Text, dotdot: nat, st: seq<Text>, ups: nat)
    requires Cleaning(path, r, text, dotdot, st, ups) && r < |path| && path[r] == SLASH
    ensures Cleaning(path, r + 1, text, dotdot, st, ups)
  {
    assert CleaningIn(Output, path, r, text, dotdot, st, ups) && CleaningIn(Dots, path, r, text, dotdot, st, ups);
    assert CleaningIn(Rest, path, r, text, dotdot, st, ups) && CleaningIn(Room, path, r, text, dotdot, st, ups);
    ReadSlash(Rooted(path), st, path[r..]);
    assert path[r..][1..] == path[r + 1..];
  }

  /** A component of length `k` begins at `r`. */
  ghost predicate NextIs(path: Text, r: nat, k: nat) {
    r + k <= |path| && (forall j | r <= j < r + k :: path[j] != SLASH) && (r + k < |path| ==> path[r + k] == SLASH)
  }

  lemma SplitAt(path: Text, r: nat, k: nat)
    requires r + k <= |path|
    ensures path[r..] == path[r..r + k] + path[r + k..]
    ensures (forall j | r <= j < r + k :: path[j] != SLASH) ==> SLASH !in path[r..r + k]
    ensures r + k < |path| ==> path[r + k..] != [] && path[r + k..][0] == path[r + k]
  {
  }

  /** After a component the output is the text of what the component leaves. */
  lemma CleaningNext(path: Text, r: nat, k: nat, text: Text, dotdot: nat, st: seq<Text>, ups: nat,
                     text': Text, dotdot': nat, st': seq<Text>, ups': nat)
    requires Cleaning(path, r, text, dotdot, st, ups) && NextIs(path, r, k)
    requires st' == Apply(Rooted(path), st, path[r..r + k]) && ups' == UpsAfter(Rooted(path), st, ups, path[r..r + k])
    requires text' == Body(Rooted(path), st') && |text'| <= r + k
    requires ups' <= |st'| && dotdot' == |Body(Rooted(path), st'[..ups'])|
    ensures Cleaning(path, r + k, text', dotdot', st', ups')
  {
    assert CleaningIn(Output, path, r, text, dotdot, st, ups) && CleaningIn(Rest, path, r, text, dotdot, st, ups);
    var c, t := path[r..r + k], path[r + k..];
    SplitAt(path, r, k);
    ReadComponent(Rooted(path), st, c, t);
    ApplyNormal(Rooted(path), st, ups, path[r..r + k]);
  }

  class Lazybuf {
    const s: Text
    var buf: array?<Byte>
    var w: nat

    ghost predicate Valid()
      reads this
    {
      w <= |s| && (buf != null ==> buf.Length == |s|)
    }

    ghost function Bytes(): Text
      requires Valid()
      reads this, buf
      ensures |Bytes()| == |s|
    {
      if buf == null then s else buf[..]
    }

    ghost function Content(): Text
      requires Valid()
      reads this, buf
    {
      Bytes()[..w]
    }

    constructor (s: Text)
      ensures Valid() && this.s == s && buf == null && Content() == []
    {
      this.s := s;
      this.buf := null;
      this.w := 0;
    }

    function Index(i: nat): (c: Byte)
      requires Valid() && i < |s|
      reads this, buf
      ensures c == Bytes()[i]
    {
      if buf == null then s[i] else buf[i]
    }

    method Append(c: Byte)
      requires Valid() && w < |s|
      modifies this, buf
      ensures Valid() && w == old(w) + 1 && Content() == old(Content()) + [c]
      ensures buf == old(buf) || fresh(buf)
    {
      ghost var text := Content();
      if buf == null {
        if w < |s| && s[w] == c {
          w := w + 1;
          return;
        }
        buf := new Byte[|s|](i requires 0 <= i < |s| => s[i]);
        assert buf[..] == s;
      }
      buf[w] := c;
      w := w + 1;
      assert buf[..w] == text + [c];
    }

    method String() returns (t: Text)
      requires Valid()
      ensures t == Content()
    {
      if buf == null {
        t := s[..w];
      } else {
        t := buf[..w];
      }
    }
  }

  /** Takes the last component off the output: goes back to the slash before it, or to the ".." part. */
  method Pop(out: Lazybuf, dotdot: nat, ghost rooted: bool, ghost st: seq<Text>, ghost ups: nat)
    requires out.Valid() && out.Content() == Body(rooted, st) && Normal(rooted, st, ups) && ups < |st|
    requires dotdot == |Body(rooted, st[..ups])|
    modifies out`w
    ensures out.Valid() && out.Content() == Body(rooted, st[..|st| - 1])
  {
    ghost var front, last := st[..|st| - 1], st[|st| - 1];
    ghost var text, kept := out.Content(), Body(rooted, st[..|st| - 1]);
    PopBounds(rooted, st, ups);
    out.w := out.w - 1;
    while out.w > dotdot && out.Index(out.w) != SLASH
      invariant out.Valid() && |kept| <= out.w < |text| && out.Bytes()[..|text|] == text
    {
      assert out.Bytes()[out.w] == text[out.w];
      out.w := out.w - 1;
    }
    if out.w > dotdot {
      assert out.Bytes()[out.w] == text[out.w];
    }
    assert out.Content() == text[..out.w];
  }

  /** In the text the last component comes after the text of the others, from which it is parted by the only
      slash after the ".." part. */
  lemma PopBounds(rooted: bool, st: seq<Text>, ups: nat)
    requires Normal(rooted, st, ups) && ups < |st|
    ensures var text, kept := Body(rooted, st), Body(rooted, st[..|st| - 1]);
            && |Body(rooted, st[..ups])| <= |kept| < |text| && text[..|kept|] == kept
            && (forall i | |kept| < i < |text| :: text[i] != SLASH)
            && (|Body(rooted, st[..ups])| < |kept| ==> text[|kept|] == SLASH)
  {
    var front, last := st[..|st| - 1], st[|st| - 1];
    assert st == front + [last];
    BodyPush(rooted, front, last);
    BodyGrows(rooted, front, ups);
    assert front[..ups] == st[..ups];
    if front == [] {
      assert st[..ups] == front;
    }
  }

  lemma {:induction false} BodyGrows(rooted: bool, st: seq<Text>, k: nat)
    requires k <= |st|
    ensures |Body(rooted, st[..k])| <= |Body(rooted, st)|
    decreases |st|
  {
    if k == |st| {
      assert st[..k] == st;
    } else {
      var front := st[..|st| - 1];
      assert st == front + [st[|st| - 1]] && front[..k] == st[..k];
      BodyPush(rooted, front, st[|st| - 1]);
      BodyGrows(rooted, front, k);
    }
  }

  lemma OneMore(text: Text, path: Text, r: nat, r': nat)
    requires r <= r' < |path|
    ensures text + path[r..r' + 1] == text + path[r..r'] + [path[r']]
  {
  }

  /** Copies the component that begins at `r` to the output. */
  method CopyName(out: Lazybuf, path: Text, r: nat) returns (r': nat)
    requires out.Valid() && out.s == path && r < |path| && out.w <= r
    modifies out, out.buf
    ensures r <= r' && NextIs(path, r, r' - r)
    ensures out.Valid() && out.Content() == old(out.Content()) + path[r..r']
    ensures out.buf == old(out.buf) || fresh(out.buf)
  {
    ghost var text := out.Content();
    r' := r;
    assert text + path[r..r] == text;
    while r' < |path| && path[r'] != SLASH
      invariant r <= r' <= |path| && (forall j | r <= j < r' :: path[j] != SLASH) && out.w == old(out.w) + r' - r
      invariant out.Valid() && out.Content() == text + path[r..r']
      invariant out.buf == old(out.buf) || fresh(out.buf)
    {
      OneMore(text, path, r, r');
      out.Append(path[r']);
      r' := r' + 1;
    }
  }

  predicate NextDot(path: Text, r: nat)
    requires r < |path|
  {
    path[r] == DOT && (r + 1 == |path| || path[r + 1] == SLASH)
  }

  predicate NextDotDot(path: Text, r: nat)
    requires r < |path|
  {
    path[r] == DOT && r + 1 < |path| && path[r + 1] == DOT && (r + 2 == |path| || path[r + 2] == SLASH)
  }

  lemma NotDots(path: Text, r: nat, k: nat)
    requires r < |path| && path[r] != SLASH && NextIs(path, r, k) && !NextDot(path, r) && !NextDotDot(path, r)
    ensures path[r..r + k] != [] && path[r..r + k] != HERE && path[r..r + k] != UP
  {
    assert k >= 1 ==> path[r..r + k][0] == path[r];
    assert k >= 2 ==> path[r..r + k][1] == path[r + 1];
  }

  lemma CleaningDot(path: Text, r: nat, text: Text, dotdot: nat, st: seq<Text>, ups: nat)
    requires Cleaning(path, r, text, dotdot, st, ups) && r < |path| && NextDot(path, r)
    ensures Cleaning(path, r + 1, text, dotdot, st, ups)
  {
    assert CleaningIn(Output, path, r, text, dotdot, st, ups) && CleaningIn(Dots, path, r, text, dotdot, st, ups);
    assert CleaningIn(Room, path, r, text, dotdot, st, ups);
    assert path[r..r + 1] == HERE;
    CleaningNext(path, r, 1, text, dotdot, st, ups, text, dotdot, st, ups);
  }

  /** The output is longer than its ".." part exactly when there is a name in it. */
  lemma DotsOnly(rooted: bool, st: seq<Text>, ups: nat)
    requires Normal(rooted, st, ups)
    ensures |Body(rooted, st)| > |Body(rooted, st[..ups])| <==> ups < |st|
  {
    if ups < |st| {
      PopBounds(rooted, st, ups);
    } else {
      assert st[..ups] == st;
    }
  }

  /** A name is added to the output, after a slash if it is not the first component. */
  lemma CleaningName(path: Text, r: nat, k: nat, text: Text, dotdot: nat, st: seq<Text>, ups: nat, text': Text)
    requires Cleaning(path, r, text, dotdot, st, ups) && r < |path| && path[r] != SLASH && NextIs(path, r, k)
    requires !NextDot(path, r) && !NextDotDot(path, r)
    requires text' == text + (if st == [] then [] else [SLASH]) + path[r..r + k]
    ensures Cleaning(path, r + k, text', dotdot, st + [path[r..r + k]], ups)
  {
    var c := path[r..r + k];
    NotDots(path, r, k);
    assert text' == Body(Rooted(path), st + [c]) && |text'| <= r + k by {
      assert CleaningIn(Output, path, r, text, dotdot, st, ups) && CleaningIn(Room, path, r, text, dotdot, st, ups);
      BodyPush(Rooted(path), st, c);
    }
    assert ups <= |st| && (st + [c])[..ups] == st[..ups] && dotdot == |Body(Rooted(path), st[..ups])| by {
      assert CleaningIn(Dots, path, r, text, dotdot, st, ups);
    }
    CleaningNext(path, r, k, text, dotdot, st, ups, text', dotdot, st + [c], ups);
  }

  /** What the output shows of the components: whether there are any, and that there is room for more. */
  lemma CleaningRoom(path: Text, r: nat, text: Text, dotdot: nat, st: seq<Text>, ups: nat)
    requires Cleaning(path, r, text, dotdot, st, ups) && r < |path| && path[r] != SLASH
    ensures |text| + (if st == [] then 0 else 1) <= r && (|text| != (if Rooted(path) then 1 else 0) <==> st != [])
  {
    assert CleaningIn(Output, path, r, text, dotdot, st, ups) && CleaningIn(Room, path, r, text, dotdot, st, ups);
    BodyStart(Rooted(path), st);
  }

  /** Puts a slash between what is there and the next name. */
  method AddSlash(out: Lazybuf, path: Text)
    requires out.Valid() && out.s == path && path != [] && out.w < |path|
    modifies out, out.buf
    ensures out.Valid() && (out.buf == old(out.buf) || fresh(out.buf))
    ensures out.Content() == old(out.Content()) +
                             if (if path[0] == SLASH then old(out.w) != 1 else old(out.w) != 0) then [SLASH] else []
  {
    if (path[0] == SLASH && out.w != 1) || (path[0] != SLASH && out.w != 0) {
      out.Append(SLASH);
    } else {
      assert out.Content() + [] == out.Content();
    }
  }

  /** Reads a name: adds it to the output. */
  method AddName(out: Lazybuf, path: Text, r: nat, ghost dotdot: nat, ghost st: seq<Text>, ghost ups: nat)
      returns (r': nat, ghost st': seq<Text>)
    requires out.Valid() && out.s == path && Cleaning(path, r, out.Content(), dotdot, st, ups)
    requires r < |path| && path[r] != SLASH && !NextDot(path, r) && !NextDotDot(path, r)
    modifies out, out.buf
    ensures out.Valid() && r < r' && Cleaning(path, r', out.Content(), dotdot, st', ups)
    ensures out.buf == old(out.buf) || fresh(out.buf)
  {
    ghost var text := out.Content();
    CleaningRoom(path, r, text, dotdot, st, ups);
    AddSlash(out, path);
    r' := CopyName(out, path, r);
    CleaningName(path, r, r' - r, text, dotdot, st, ups, out.Content());
    st' := st + [path[r..r']];
  }

  /** A name goes with ".." after it. */
  lemma CleaningPopped(path: Text, r: nat, text: Text, dotdot: nat, st: seq<Text>, ups: nat)
    requires Cleaning(path, r, text, dotdot, st, ups) && r < |path| && NextDotDot(path, r) && ups < |st|
    ensures Cleaning(path, r + 2, Body(Rooted(path), st[..|st| - 1]), dotdot, st[..|st| - 1], ups)
  {
    assert CleaningIn(Output, path, r, text, dotdot, st, ups) && CleaningIn(Dots, path, r, text, dotdot, st, ups);
    assert CleaningIn(Room, path, r, text, dotdot, st, ups);
    assert path[r..r + 2] == UP;
    var st' := st[..|st| - 1];
    BodyGrows(Rooted(path), st, |st| - 1);
    assert st'[..ups] == st[..ups];
    CleaningNext(path, r, 2, text, dotdot, st, ups, Body(Rooted(path), st'), dotdot, st', ups);
  }

  /** Under the root ".." does nothing. */
  lemma CleaningAtRoot(path: Text, r: nat, text: Text, dotdot: nat, st: seq<Text>, ups: nat)
    requires Cleaning(path, r, text, dotdot, st, ups) && r < |path| && NextDotDot(path, r) && ups == |st|
    requires Rooted(path)
    ensures Cleaning(path, r + 2, text, dotdot, st, ups)
  {
    assert CleaningIn(Output, path, r, text, dotdot, st, ups) && CleaningIn(Dots, path, r, text, dotdot, st, ups);
    assert CleaningIn(Room, path, r, text, dotdot, st, ups);
    assert path[r..r + 2] == UP;
    CleaningNext(path, r, 2, text, dotdot, st, ups, text, dotdot, st, ups);
  }

  /** With no name to take away in a path that is not rooted, ".." stays. */
  lemma CleaningUp(path: Text, r: nat, text: Text, dotdot: nat, st: seq<Text>, ups: nat, text': Text)
    requires Cleaning(path, r, text, dotdot, st, ups) && r < |path| && NextDotDot(path, r) && ups == |st|
    requires !Rooted(path) && text' == text + (if text == [] then [] else [SLASH]) + UP
    ensures |text'| <= r + 2 && Cleaning(path, r + 2, text', |text'|, st + [UP], ups + 1)
  {
    assert |text'| <= r + 2 && text' == Body(false, st + [UP]) by {
      assert CleaningIn(Output, path, r, text, dotdot, st, ups);
      assert CleaningIn(Room, path, r, text, dotdot, st, ups);
      BodyStart(false, st);
      BodyPush(false, st, UP);
    }
    assert path[r..r + 2] == UP;
    assert Apply(false, st, UP) == st + [UP] by {
      assert CleaningIn(Output, path, r, text, dotdot, st, ups);
    }
    assert (st + [UP])[..ups + 1] == st + [UP];
    CleaningNext(path, r, 2, text, dotdot, st, ups, text', |text'|, st + [UP], ups + 1);
  }

  /** Adds ".." to the output. */
  method AppendUp(out: Lazybuf)
    requires out.Valid() && out.w + (if out.w > 0 then 3 else 2) <= |out.s|
    modifies out, out.buf
    ensures out.Valid() && (out.buf == old(out.buf) || fresh(out.buf))
    ensures out.Content() == old(out.Content()) + (if old(out.w) == 0 then [] else [SLASH]) + UP
  {
    if out.w > 0 {
      out.Append(SLASH);
    }
    out.Append(DOT);
    out.Append(DOT);
  }

  /** Reads "..": takes the last name off the output, or adds ".." to a path that is not rooted. */
  method GoUp(out: Lazybuf, path: Text, r: nat, dotdot: nat, ghost st: seq<Text>, ghost ups: nat)
      returns (dotdot': nat, ghost st': seq<Text>, ghost ups': nat)
    requires out.Valid() && out.s == path && Cleaning(path, r, out.Content(), dotdot, st, ups)
    requires r < |path| && NextDotDot(path, r)
    modifies out, out.buf
    ensures out.Valid() && Cleaning(path, r + 2, out.Content(), dotdot', st', ups')
    ensures out.buf == old(out.buf) || fresh(out.buf)
  {
    ghost var text, rooted := out.Content(), Rooted(path);
    assert CleaningIn(Output, path, r, text, dotdot, st, ups) && CleaningIn(Dots, path, r, text, dotdot, st, ups);
    DotsOnly(rooted, st, ups);
    dotdot', st', ups' := dotdot, st, ups;
    if out.w > dotdot {
      Pop(out, dotdot, rooted, st, ups);
      CleaningPopped(path, r, text, dotdot, st, ups);
      st' := st[..|st| - 1];
    } else {
      if path[0] != SLASH {
        CleaningUp(path, r, text, dotdot, st, ups, text + (if text == [] then [] else [SLASH]) + UP);
        AppendUp(out);
        dotdot' := out.w;
        st', ups' := st + [UP], ups + 1;
      } else {
        CleaningAtRoot(path, r, text, dotdot, st, ups);
      }
    }
  }

  /** The normal form of a path, for every string of bytes; in UTF-8 as long as the path is. */
  method Clean(path: Text) returns (t: Text)
    ensures t == Cleaned(path)
    ensures Utf8.WellFormed(path) ==> Utf8.WellFormed(t)
  {
    if Utf8.WellFormed(path) {
      Utf8.CleanedWellFormed(path);
    }
    t := CleanBytes(path);
  }

  method CleanBytes(path: Text) returns (t: Text)
    ensures t == Cleaned(path)
  {
    if path == [] {
      CleanedEmpty();
      return HERE;
    }
    var out := new Lazybuf(path);
    var r: nat, dotdot: nat := 0, 0;
    if path[0] == SLASH {
      out.Append(SLASH);
      r, dotdot := 1, 1;
    }
    ghost var st: seq<Text>, ups: nat := [], 0;
    CleaningStart(path);
    assert out.Content() == path[..r];
    while r < |path|
      invariant out.Valid() && out.s == path && (out.buf == null || fresh(out.buf))
      invariant r <= |path| && Cleaning(path, r, out.Content(), dotdot, st, ups)
    {
      if path[r] == SLASH {
        CleaningSlash(path, r, out.Content(), dotdot, st, ups);
        r := r + 1;
      } else if NextDot(path, r) {
        CleaningDot(path, r, out.Content(), dotdot, st, ups);
        r := r + 1;
      } else if NextDotDot(path, r) {
        dotdot, st, ups := GoUp(out, path, r, dotdot, st, ups);
        r := r + 2;
      } else {
        r, st := AddName(out, path, r, dotdot, st, ups);
        assert CleaningIn(Room, path, r, out.Content(), dotdot, st, ups);
      }
    }
    CleaningEnd(path, r, out.Content(), dotdot, st, ups);
    if out.w == 0 {
      return HERE;
    }
    t := out.String();
  }

  lemma CleanedEmpty()
    ensures Cleaned([]) == HERE
  {
    ComponentsSingle([]);
    FoldOne(false, [], []);
  }

  lemma CleaningEnd(path: Text, r: nat, text: Text, dotdot: nat, st: seq<Text>, ups: nat)
    requires Cleaning(path, r, text, dotdot, st, ups) && r == |path|
    ensures Cleaned(path) == if text == [] then HERE else text
  {
    assert CleaningIn(Output, path, r, text, dotdot, st, ups) && CleaningIn(Rest, path, r, text, dotdot, st, ups);
    assert path[r..] == [];
    ComponentsSingle([]);
    FoldOne(Rooted(path), st, []);
  }

  method JoinPath(path: Text, elem: Text) returns (t: Text)
    ensures t == Joined(path, elem)
  {
    t := Clean(path + [SLASH] + elem);
  }
}
