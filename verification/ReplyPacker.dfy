/** The packing of release notes into replies (buildX in scripts/release-posts.js). A line's weight is its
    length as X counts it; joining two lines costs one more for the newline, which no link can cross. */
module ReplyPacker {
  import opened Bytes

  const LIMIT: nat := 280

  datatype Line = Line(text: nat, weight: nat, heading: bool)

  /** A post, or part of one: lines to be joined by newlines. */
  type Post = seq<Line>

  /** xLength of the joined lines. */
  function Weight(p: Post): nat {
    if p == [] then 0 else if |p| == 1 then p[0].weight else p[0].weight + 1 + Weight(p[1..])
  }

  lemma {:induction false} WeightJoins(a: Post, b: Post)
    requires a != [] && b != []
    ensures Weight(a + b) == Weight(a) + 1 + Weight(b)
    decreases |a|
  {
    if |a| == 1 {
      assert (a + b)[1..] == b;
    } else {
      assert (a + b)[1..] == a[1..] + b;
      WeightJoins(a[1..], b);
    }
  }

  // ---- Blocks: a heading goes with the line after it

  function Blocks(lines: seq<Line>): (bs: seq<Post>)
    ensures forall i | 0 <= i < |bs| :: bs[i] != []
    decreases |lines|
  {
    if lines == [] then []
    else if lines[0].heading && |lines| > 1 then [[lines[0], lines[1]]] + Blocks(lines[2..])
    else [[lines[0]]] + Blocks(lines[1..])
  }

  function Flatten(ps: seq<Post>): seq<Line> {
    if ps == [] then [] else ps[0] + Flatten(ps[1..])
  }

  lemma {:induction false} BlocksKeepLines(lines: seq<Line>)
    ensures Flatten(Blocks(lines)) == lines
    decreases |lines|
  {
    if lines != [] {
      var n := if lines[0].heading && |lines| > 1 then 2 else 1;
      BlocksKeepLines(lines[n..]);
      var bs := Blocks(lines);
      assert bs[1..] == Blocks(lines[n..]);
      assert lines[..n] + lines[n..] == lines;
      assert bs[0] == lines[..n];
    }
  }

  // ---- The greedy packer

  predicate Fits(current: Post, block: Post) {
    Weight(current + block) <= LIMIT
  }

  /** The posts made of an open post and the blocks still to come. */
  function Pack(current: Post, blocks: seq<Post>): seq<Post>
    decreases |blocks|
  {
    if blocks == [] then (if current == [] then [] else [current])
    else if current != [] && !Fits(current, blocks[0]) then [current] + Pack(blocks[0], blocks[1..])
    else Pack(current + blocks[0], blocks[1..])
  }

  function Replies(lines: seq<Line>): seq<Post> {
    Pack([], Blocks(lines))
  }

  /** The loop of `buildX`. */
  method PackReplies(lines: seq<Line>) returns (replies: seq<Post>)
    ensures replies == Replies(lines)
  {
    hide Pack, Weight;
    replies := [];
    var current: Post := [];
    var i := 0;
    assert lines[0..] == lines;
    ghost var all := Replies(lines);
    ghost var rest := Pack(current, Blocks(lines[i..]));
    while i < |lines|
      invariant i <= |lines| && rest == Pack(current, Blocks(lines[i..])) && replies + rest == all
    {
      var block := if lines[i].heading && i + 1 < |lines| then [lines[i], lines[i + 1]] else [lines[i]];
      BlocksAt(lines, i);
      PackStep(current, block, Blocks(lines[i + |block|..]));
      if |current| > 0 && !Fits(current, block) {
        rest := Pack(block, Blocks(lines[i + |block|..]));
        Assoc(replies, [current], rest);
        replies := replies + [current];
        current := [];
      }
      current := current + block;
      i := i + |block|;
    }
    PackEnd(current);
    if |current| > 0 {
      replies := replies + [current];
    }
  }

  lemma BlocksAt(lines: seq<Line>, i: nat)
    requires i < |lines|
    ensures var block := if lines[i].heading && i + 1 < |lines| then [lines[i], lines[i + 1]] else [lines[i]];
            Blocks(lines[i..]) == [block] + Blocks(lines[i + |block|..])
  {
    assert lines[i..][0] == lines[i] && lines[i..][1..] == lines[i + 1..];
    if i + 1 < |lines| {
      assert lines[i..][1] == lines[i + 1] && lines[i..][2..] == lines[i + 2..];
    }
  }

  lemma PackStep(current: Post, block: Post, blocks: seq<Post>)
    ensures Pack(current, [block] + blocks) ==
              if current != [] && !Fits(current, block) then [current] + Pack([] + block, blocks)
              else Pack(current + block, blocks)
    ensures [] + block == block
  {
    assert ([block] + blocks)[1..] == blocks;
    assert [] + block == block;
  }

  lemma PackEnd(current: Post)
    ensures Pack(current, Blocks([])) == if current == [] then [] else [current]
  {
  }

  // ---- Nothing lost, nothing reordered

  lemma {:induction false} PackKeeps(current: Post, blocks: seq<Post>)
    ensures Flatten(Pack(current, blocks)) == current + Flatten(blocks)
    decreases |blocks|
  {
    if blocks == [] {
      if current != [] {
        assert [current][1..] == [];
      }
    } else if current != [] && !Fits(current, blocks[0]) {
      PackKeeps(blocks[0], blocks[1..]);
      assert ([current] + Pack(blocks[0], blocks[1..]))[1..] == Pack(blocks[0], blocks[1..]);
    } else {
      PackKeeps(current + blocks[0], blocks[1..]);
      Assoc(current, blocks[0], Flatten(blocks[1..]));
    }
  }

  /** Every line is in the replies once and in order. */
  lemma EveryLineOnce(lines: seq<Line>)
    ensures Flatten(Replies(lines)) == lines
  {
    PackKeeps([], Blocks(lines));
    BlocksKeepLines(lines);
  }

  // ---- Posts are runs of whole blocks, within the limit

  /** A post made of `blocks`, one or more. */
  ghost predicate MadeOf(p: Post, blocks: seq<Post>) {
    blocks != [] && p == Flatten(blocks)
  }

  /** The posts, and for each the blocks it is made of, in order; one over the limit is a block of its own. */
  lemma {:induction false} PackGroups(current: Post, open: seq<Post>, blocks: seq<Post>)
    returns (groups: seq<seq<Post>>)
    requires current == Flatten(open) && (current == [] <==> open == [])
    requires forall i | 0 <= i < |open| :: open[i] != []
    requires forall i | 0 <= i < |blocks| :: blocks[i] != []
    requires open == [] || |open| == 1 || Weight(current) <= LIMIT
    ensures var posts := Pack(current, blocks);
            && |groups| == |posts| && FlattenGroups(groups) == open + blocks
            && forall k | 0 <= k < |posts| ::
                 MadeOf(posts[k], groups[k]) && (|groups[k]| == 1 || Weight(posts[k]) <= LIMIT)
    decreases |blocks|
  {
    if blocks == [] {
      groups := if current == [] then [] else [open];
      assert groups != [] ==> groups[1..] == [];
      assert open + blocks == open;
    } else {
      var b, more := blocks[0], blocks[1..];
      assert blocks == [b] + more;
      if current != [] && !Fits(current, b) {
        assert Flatten([b]) == b by { assert [b][1..] == []; }
        var later := PackGroups(b, [b], more);
        groups := [open] + later;
        assert groups[1..] == later;
      } else {
        FlattenLast(open, b);
        assert current == [] ==> current + b == b;
        groups := PackGroups(current + b, open + [b], more);
        ShiftHead(open, blocks);
      }
    }
  }

  function FlattenGroups(groups: seq<seq<Post>>): seq<Post> {
    if groups == [] then [] else groups[0] + FlattenGroups(groups[1..])
  }

  lemma {:induction false} FlattenLast(ps: seq<Post>, b: Post)
    ensures Flatten(ps + [b]) == Flatten(ps) + b
    decreases |ps|
  {
    if ps == [] {
      assert (ps + [b])[1..] == [];
    } else {
      assert (ps + [b])[1..] == ps[1..] + [b];
      FlattenLast(ps[1..], b);
      Assoc(ps[0], Flatten(ps[1..]), b);
    }
  }

  /** When every block fits a post by itself, every post is within the limit. */
  lemma {:induction false} PackWithinLimit(current: Post, blocks: seq<Post>)
    requires Weight(current) <= LIMIT && forall i | 0 <= i < |blocks| :: Weight(blocks[i]) <= LIMIT
    ensures forall k | 0 <= k < |Pack(current, blocks)| :: Weight(Pack(current, blocks)[k]) <= LIMIT
    decreases |blocks|
  {
    if blocks != [] {
      if current != [] && !Fits(current, blocks[0]) {
        PackWithinLimit(blocks[0], blocks[1..]);
      } else {
        assert current == [] ==> current + blocks[0] == blocks[0];
        PackWithinLimit(current + blocks[0], blocks[1..]);
      }
    }
  }

  lemma PostsWithinLimit(lines: seq<Line>)
    requires forall i | 0 <= i < |Blocks(lines)| :: Weight(Blocks(lines)[i]) <= 280
    ensures forall k | 0 <= k < |Replies(lines)| :: Weight(Replies(lines)[k]) <= 280
  {
    PackWithinLimit([], Blocks(lines));
  }

  /** Whatever the weights, a post over the limit is one block that is over it by itself. */
  lemma OverlongPostIsOneBlock(lines: seq<Line>, k: nat)
    requires k < |Replies(lines)| && Weight(Replies(lines)[k]) > 280
    ensures Replies(lines)[k] in Blocks(lines)
  {
    var groups := PackGroups([], [], Blocks(lines));
    assert [] + Blocks(lines) == Blocks(lines);
    var g := groups[k];
    assert MadeOf(Replies(lines)[k], g) && |g| == 1;
    assert g == [g[0]] && Flatten(g) == g[0] by { assert g[1..] == []; }
    InGroups(groups, k, g[0]);
  }

  lemma {:induction false} InGroups(groups: seq<seq<Post>>, k: nat, b: Post)
    requires k < |groups| && b in groups[k]
    ensures b in FlattenGroups(groups)
    decreases |groups|
  {
    if k > 0 {
      InGroups(groups[1..], k - 1, b);
    }
  }

  // ---- Headings

  predicate EndsPlain(p: Post) {
    p != [] && !p[|p| - 1].heading
  }

  /** No heading right after a heading, as in the lines built from groups that all have items. */
  ghost predicate HeadingsApart(lines: seq<Line>) {
    forall i | 0 <= i < |lines| - 1 && lines[i].heading :: !lines[i + 1].heading
  }

  lemma {:induction false} BlocksEndPlain(lines: seq<Line>)
    requires HeadingsApart(lines)
    ensures forall i | 0 <= i < |Blocks(lines)| - 1 :: EndsPlain(Blocks(lines)[i])
    decreases |lines|
  {
    if lines != [] {
      var n := if lines[0].heading && |lines| > 1 then 2 else 1;
      assert HeadingsApart(lines[n..]) by {
        assert forall i | 0 <= i < |lines| - n :: lines[n..][i] == lines[i + n];
      }
      BlocksEndPlain(lines[n..]);
      var bs := Blocks(lines);
      forall i | 0 <= i < |bs| - 1 ensures EndsPlain(bs[i]) {
        if i > 0 {
          assert bs[i] == Blocks(lines[n..])[i - 1];
        } else if n == 2 {
          assert bs[0][1] == lines[1];
        } else {
          assert |lines| > 1;
        }
      }
    }
  }

  lemma {:induction false} PackEndsPlain(current: Post, blocks: seq<Post>)
    requires current == [] || blocks == [] || EndsPlain(current)
    requires forall i | 0 <= i < |blocks| :: blocks[i] != []
    requires forall i | 0 <= i < |blocks| - 1 :: EndsPlain(blocks[i])
    ensures forall k | 0 <= k < |Pack(current, blocks)| - 1 :: EndsPlain(Pack(current, blocks)[k])
    decreases |blocks|
  {
    if blocks != [] {
      if current != [] && !Fits(current, blocks[0]) {
        PackEndsPlain(blocks[0], blocks[1..]);
      } else {
        PackEndsPlain(current + blocks[0], blocks[1..]);
      }
    }
  }

  /** No post but the last ends with a heading: a heading is always with the line after it. */
  lemma HeadingsStayWithTheirLine(lines: seq<Line>)
    requires HeadingsApart(lines)
    ensures forall k | 0 <= k < |Replies(lines)| - 1 :: EndsPlain(Replies(lines)[k])
  {
    BlocksEndPlain(lines);
    PackEndsPlain([], Blocks(lines));
  }

  /** A changelog group as parsed: groups without items were dropped. */
  datatype Group = Group(heading: seq<Line>, items: seq<Line>)

  ghost predicate ValidGroup(g: Group) {
    && |g.heading| <= 1 && (g.heading != [] ==> g.heading[0].heading)
    && g.items != [] && forall i | 0 <= i < |g.items| :: !g.items[i].heading
  }

  /** The lines of all groups, then the closing one; the first group's heading is in the main post. */
  function BuildLines(groups: seq<Group>, first: bool, closing: Line): seq<Line> {
    if groups == [] then [closing]
    else (if first then [] else groups[0].heading) + (groups[0].items + BuildLines(groups[1..], false, closing))
  }

  /** What the packer is given never has two headings in a row. */
  lemma {:induction false} BuiltHeadingsApart(groups: seq<Group>, first: bool, closing: Line)
    requires (forall i | 0 <= i < |groups| :: ValidGroup(groups[i])) && !closing.heading
    ensures HeadingsApart(BuildLines(groups, first, closing))
    decreases |groups|
  {
    if groups != [] {
      BuiltHeadingsApart(groups[1..], false, closing);
      var g := groups[0];
      var head := if first then [] else g.heading;
      var rest := BuildLines(groups[1..], false, closing);
      var lines := head + (g.items + rest);
      assert lines == BuildLines(groups, first, closing);
      assert forall j | |head| <= j < |head| + |g.items| :: lines[j] == g.items[j - |head|];
      forall i | 0 <= i < |lines| - 1 && lines[i].heading ensures !lines[i + 1].heading {
        if i >= |head| + |g.items| {
          var k := i - |head| - |g.items|;
          assert lines[i] == rest[k] && lines[i + 1] == rest[k + 1];
        }
      }
    }
  }

  /** So in the replies of any release, no heading is parted from its first item. */
  lemma ReleaseHeadingsStay(groups: seq<Group>, closing: Line)
    requires (forall i | 0 <= i < |groups| :: ValidGroup(groups[i])) && !closing.heading
    ensures var posts := Replies(BuildLines(groups, true, closing));
            forall k | 0 <= k < |posts| :: EndsPlain(posts[k])
  {
    var lines := BuildLines(groups, true, closing);
    BuiltHeadingsApart(groups, true, closing);
    HeadingsStayWithTheirLine(lines);
    EveryLineOnce(lines);
    ClosesLast(groups, true, closing);
    var posts := Replies(lines);
    if posts != [] {
      PostsNotEmpty([], Blocks(lines));
      LastOfFlatten(posts);
    }
  }

  lemma {:induction false} ClosesLast(groups: seq<Group>, first: bool, closing: Line)
    ensures var lines := BuildLines(groups, first, closing);
            lines != [] && lines[|lines| - 1] == closing
    decreases |groups|
  {
    if groups != [] {
      ClosesLast(groups[1..], false, closing);
    }
  }

  lemma {:induction false} PostsNotEmpty(current: Post, blocks: seq<Post>)
    requires forall i | 0 <= i < |blocks| :: blocks[i] != []
    ensures forall k | 0 <= k < |Pack(current, blocks)| :: Pack(current, blocks)[k] != []
    decreases |blocks|
  {
    if blocks != [] {
      PostsNotEmpty(blocks[0], blocks[1..]);
      PostsNotEmpty(current + blocks[0], blocks[1..]);
    }
  }

  lemma {:induction false} LastOfFlatten(ps: seq<Post>)
    requires ps != [] && ps[|ps| - 1] != []
    ensures var p, all := ps[|ps| - 1], Flatten(ps);
            all != [] && all[|all| - 1] == p[|p| - 1]
    decreases |ps|
  {
    if |ps| == 1 {
      assert ps[1..] == [] && ps[0] + [] == ps[0];
    } else {
      LastOfFlatten(ps[1..]);
    }
  }

  /** With two headings in a row the second can be left behind its item. */
  lemma TwoHeadingsCanSplit()
    ensures var lines := [Line(0, 100, true), Line(1, 100, true), Line(2, 100, false)];
            Replies(lines) == [[lines[0], lines[1]], [lines[2]]]
  {
    var h0, h1, item := Line(0, 100, true), Line(1, 100, true), Line(2, 100, false);
    var lines := [h0, h1, item];
    assert lines[2..] == [item] && [item][1..] == [];
    assert Blocks([item]) == [[item]];
    assert Blocks(lines) == [[h0, h1], [item]];
    assert Weight([h0, h1]) == 201 by { assert [h0, h1][1..] == [h1]; }
    WeightJoins([h0, h1], [item]);
    assert [[h0, h1], [item]][1..] == [[item]] && [[item]][1..] == [];
    assert [] + [h0, h1] == [h0, h1];
    assert Pack([item], []) == [[item]];
    assert Pack([h0, h1], [[item]]) == [[h0, h1]] + Pack([item], []);
  }

  // ---- Nothing of the changelog is dropped

  function Plain(lines: seq<Line>): seq<Line> {
    if lines == [] then [] else (if lines[0].heading then [] else [lines[0]]) + Plain(lines[1..])
  }

  function Headings(lines: seq<Line>): seq<Line> {
    if lines == [] then [] else (if lines[0].heading then [lines[0]] else []) + Headings(lines[1..])
  }

  function AllItems(groups: seq<Group>): seq<Line> {
    if groups == [] then [] else groups[0].items + AllItems(groups[1..])
  }

  function AllHeadings(groups: seq<Group>): seq<Line> {
    if groups == [] then [] else groups[0].heading + AllHeadings(groups[1..])
  }

  lemma {:induction false} SiftConcat(a: seq<Line>, b: seq<Line>)
    ensures Plain(a + b) == Plain(a) + Plain(b) && Headings(a + b) == Headings(a) + Headings(b)
    decreases |a|
  {
    if a == [] {
      assert a + b == b;
    } else {
      assert (a + b)[1..] == a[1..] + b;
      SiftConcat(a[1..], b);
    }
  }

  lemma {:induction false} SiftUniform(a: seq<Line>, heading: bool)
    requires forall i | 0 <= i < |a| :: a[i].heading == heading
    ensures Plain(a) == (if heading then [] else a) && Headings(a) == if heading then a else []
    decreases |a|
  {
    if a != [] {
      SiftUniform(a[1..], heading);
      assert [a[0]] + a[1..] == a;
    }
  }

  /** Where each group's lines are: after the items of all groups before it come its heading, but for the first
      group's, and its items, and then the items of all groups after it and the closing line. */
  lemma {:induction false} GroupIsPlaced(groups: seq<Group>, first: bool, k: nat, closing: Line)
    returns (before: seq<Line>, after: seq<Line>)
    requires (forall i | 0 <= i < |groups| :: ValidGroup(groups[i])) && !closing.heading && k < |groups|
    ensures BuildLines(groups, first, closing) ==
              before + (if first && k == 0 then [] else groups[k].heading) + groups[k].items + after
    ensures Plain(before) == AllItems(groups[..k])
    ensures Plain(after) == AllItems(groups[k + 1..]) + [closing]
    decreases |groups|
  {
    hide Plain, Headings, ValidGroup;
    var g, rest := groups[0], groups[1..];
    var head := if first then [] else g.heading;
    if k == 0 {
      before, after := [], BuildLines(rest, false, closing);
      SiftUniform([], false);
      ItemsAndHeadings(rest, false, closing);
      Nest([], [], [], head, g.items, after);
    } else {
      var tail;
      tail, after := GroupIsPlaced(rest, false, k - 1, closing);
      before := head + g.items + tail;
      assert ValidGroup(g);
      SiftValid(g, first, tail);
      assert groups[..k][1..] == rest[..k - 1] && groups[k + 1..] == rest[k..];
      Nest(head, g.items, tail, groups[k].heading, groups[k].items, after);
    }
  }

  lemma SiftValid(g: Group, first: bool, tail: seq<Line>)
    requires ValidGroup(g)
    ensures Plain((if first then [] else g.heading) + g.items + tail) == g.items + Plain(tail)
  {
    var head := if first then [] else g.heading;
    SiftGroup(head, g.items, tail);
    Assoc(head, g.items, tail);
  }

  lemma Nest<T>(a: seq<T>, b: seq<T>, c: seq<T>, d: seq<T>, e: seq<T>, f: seq<T>)
    ensures a + (b + (c + d + e + f)) == a + b + c + d + e + f
  {
  }

  /** One group's lines, put before others. */
  lemma SiftGroup(head: seq<Line>, items: seq<Line>, rest: seq<Line>)
    requires (forall i | 0 <= i < |head| :: head[i].heading) && (forall i | 0 <= i < |items| :: !items[i].heading)
    ensures Plain(head + (items + rest)) == items + Plain(rest)
    ensures Headings(head + (items + rest)) == head + Headings(rest)
  {
    hide Plain, Headings;
    SiftUniform(head, true);
    SiftUniform(items, false);
    SiftConcat(items, rest);
    SiftConcat(head, items + rest);
  }

  lemma {:induction false} ItemsAndHeadings(groups: seq<Group>, first: bool, closing: Line)
    requires (forall i | 0 <= i < |groups| :: ValidGroup(groups[i])) && !closing.heading
    ensures Plain(BuildLines(groups, first, closing)) == AllItems(groups) + [closing]
    ensures Headings(BuildLines(groups, first, closing)) ==
              AllHeadings(if first && groups != [] then groups[1..] else groups)
    decreases |groups|
  {
    hide Plain, Headings;
    if groups == [] {
      SiftUniform([closing], false);
    } else {
      var g := groups[0];
      var head, rest := if first then [] else g.heading, BuildLines(groups[1..], false, closing);
      ItemsAndHeadings(groups[1..], false, closing);
      SiftGroup(head, g.items, rest);
      Assoc(g.items, AllItems(groups[1..]), [closing]);
    }
  }

  /** The posts of a release: read one after the other, they hold every item of every group and then the closing
      line, and the heading of every group but the first, each once and in the changelog's order. */
  lemma ReleaseIsPosted(groups: seq<Group>, closing: Line)
    requires (forall i | 0 <= i < |groups| :: ValidGroup(groups[i])) && !closing.heading
    ensures var text := Flatten(Replies(BuildLines(groups, true, closing)));
            && Plain(text) == AllItems(groups) + [closing]
            && Headings(text) == if groups == [] then [] else AllHeadings(groups[1..])
  {
    EveryLineOnce(BuildLines(groups, true, closing));
    ItemsAndHeadings(groups, true, closing);
  }

  // ---- Fewest posts

  /** The cost of blocks joined onto a post. */
  function Added(blocks: seq<Post>): nat {
    if blocks == [] then 0 else 1 + Weight(blocks[0]) + Added(blocks[1..])
  }

  /** The greedy count of posts from an open post of weight `cur`. */
  function Count(cur: nat, blocks: seq<Post>): nat
    decreases |blocks|
  {
    if blocks == [] then 1
    else if cur + 1 + Weight(blocks[0]) <= LIMIT then Count(cur + 1 + Weight(blocks[0]), blocks[1..])
    else 1 + Count(Weight(blocks[0]), blocks[1..])
  }

  lemma {:induction false} PackCounts(current: Post, blocks: seq<Post>)
    requires current != [] && forall i | 0 <= i < |blocks| :: blocks[i] != []
    ensures |Pack(current, blocks)| == Count(Weight(current), blocks)
    decreases |blocks|
  {
    if blocks != [] {
      WeightJoins(current, blocks[0]);
      if Fits(current, blocks[0]) {
        PackCounts(current + blocks[0], blocks[1..]);
      } else {
        PackCounts(blocks[0], blocks[1..]);
      }
    }
  }

  /** Every group a post within the limit, none empty. */
  ghost predicate ValidGroups(groups: seq<seq<Post>>) {
    forall i | 0 <= i < |groups| :: groups[i] != [] && Weight(groups[i][0]) + Added(groups[i][1..]) <= LIMIT
  }

  /** The greedy packer stays ahead. Some packing has an open group of weight `other`, with `open` still to
      join it, and then `groups`; the greedy one has an open post of weight `cur` over the same blocks. If
      the greedy post is no heavier it needs no more posts; whatever it weighs, at most one more. */
  lemma {:induction false} StaysAhead(cur: nat, other: nat, open: seq<Post>, groups: seq<seq<Post>>)
    requires other + Added(open) <= LIMIT && ValidGroups(groups)
    ensures cur <= other ==> Count(cur, open + FlattenGroups(groups)) <= 1 + |groups|
    ensures Count(cur, open + FlattenGroups(groups)) <= 2 + |groups|
    decreases |open| + |FlattenGroups(groups)| + |groups|, |groups|
  {
    if open != [] {
      var b := open[0];
      var rest := open[1..] + FlattenGroups(groups);
      assert (open + FlattenGroups(groups))[0] == b && (open + FlattenGroups(groups))[1..] == rest;
      StaysAhead(cur + 1 + Weight(b), other + 1 + Weight(b), open[1..], groups);
      StaysAhead(Weight(b), other + 1 + Weight(b), open[1..], groups);
    } else if groups != [] {
      var g := groups[0];
      var b := g[0];
      var rest := g[1..] + FlattenGroups(groups[1..]);
      assert g == [b] + g[1..];
      assert open + FlattenGroups(groups) == [b] + rest;
      assert ([b] + rest)[1..] == rest;
      StaysAhead(cur + 1 + Weight(b), Weight(b), g[1..], groups[1..]);
      StaysAhead(Weight(b), Weight(b), g[1..], groups[1..]);
    }
  }

  lemma {:induction false} GroupWeight(g: seq<Post>)
    requires g != [] && forall i | 0 <= i < |g| :: g[i] != []
    ensures Weight(Flatten(g)) == Weight(g[0]) + Added(g[1..]) && Flatten(g) != []
    decreases |g|
  {
    if |g| == 1 {
      assert g[1..] == [] && Flatten(g) == g[0];
    } else {
      GroupWeight(g[1..]);
      WeightJoins(g[0], Flatten(g[1..]));
      assert g[1..][1..] == g[2..] && g[1..][0] == g[1];
    }
  }

  /** However else the blocks are divided, in order, into posts within the limit, it takes at least as many
      posts. */
  lemma FewestPosts(lines: seq<Line>, groups: seq<seq<Post>>)
    requires FlattenGroups(groups) == Blocks(lines)
    requires forall i | 0 <= i < |groups| :: groups[i] != [] && Weight(Flatten(groups[i])) <= 280
    ensures |Replies(lines)| <= |groups|
  {
    if groups != [] {
      var bs, g := Blocks(lines), groups[0];
      WithinLimitIsValid(groups);
      FirstGroup(groups);
      StaysAhead(Weight(g[0]), Weight(g[0]), g[1..], groups[1..]);
      assert Pack([], bs) == Pack([] + bs[0], bs[1..]);
      assert [] + bs[0] == bs[0];
      PackCounts(bs[0], bs[1..]);
    }
  }

  lemma WithinLimitIsValid(groups: seq<seq<Post>>)
    requires forall i | 0 <= i < |FlattenGroups(groups)| :: FlattenGroups(groups)[i] != []
    requires forall i | 0 <= i < |groups| :: groups[i] != [] && Weight(Flatten(groups[i])) <= 280
    ensures ValidGroups(groups)
  {
    forall i | 0 <= i < |groups| ensures Weight(groups[i][0]) + Added(groups[i][1..]) <= LIMIT {
      forall j | 0 <= j < |groups[i]| ensures groups[i][j] != [] {
        InGroups(groups, i, groups[i][j]);
      }
      GroupWeight(groups[i]);
    }
  }

  lemma FirstGroup(groups: seq<seq<Post>>)
    requires groups != [] && groups[0] != []
    ensures var bs, g := FlattenGroups(groups), groups[0];
            bs != [] && bs[0] == g[0] && bs[1..] == g[1..] + FlattenGroups(groups[1..])
  {
  }

  /** Blocks do not reach over a line that is no heading. */
  lemma {:induction false} BlocksOfConcat(a: seq<Line>, b: seq<Line>)
    requires a == [] || EndsPlain(a)
    ensures Blocks(a + b) == Blocks(a) + Blocks(b)
    decreases |a|
  {
    var all := a + b;
    if a == [] {
      assert all == b;
    } else if a[0].heading {
      assert |a| > 1 && all[0] == a[0] && all[1] == a[1] && all[2..] == a[2..] + b;
      BlocksOfConcat(a[2..], b);
    } else {
      assert all[0] == a[0] && all[1..] == a[1..] + b;
      BlocksOfConcat(a[1..], b);
    }
  }

  /** The blocks of each post. */
  function BlocksOfEach(posts: seq<Post>): (groups: seq<seq<Post>>)
    ensures |groups| == |posts| && forall i | 0 <= i < |posts| :: groups[i] == Blocks(posts[i])
  {
    if posts == [] then [] else [Blocks(posts[0])] + BlocksOfEach(posts[1..])
  }

  lemma {:induction false} BlocksOfPosts(posts: seq<Post>)
    requires forall i | 0 <= i < |posts| - 1 :: EndsPlain(posts[i])
    ensures FlattenGroups(BlocksOfEach(posts)) == Blocks(Flatten(posts))
    decreases |posts|
  {
    if posts != [] {
      var rest := posts[1..];
      BlocksOfPosts(rest);
      assert BlocksOfEach(posts)[1..] == BlocksOfEach(rest);
      if rest == [] {
        assert posts[0] + [] == posts[0] && Blocks(posts[0]) + [] == Blocks(posts[0]);
      } else {
        BlocksOfConcat(posts[0], Flatten(rest));
      }
    }
  }

  /** However else the lines are divided, in order, into posts within the limit of which none but the last ends in
      a heading, it takes at least as many posts. */
  lemma FewestPostsOfAny(lines: seq<Line>, posts: seq<Post>)
    requires Flatten(posts) == lines
    requires forall i | 0 <= i < |posts| :: Weight(posts[i]) <= 280
    requires forall i | 0 <= i < |posts| - 1 :: EndsPlain(posts[i])
    ensures |Replies(lines)| <= |posts|
  {
    hide Weight, Blocks, Replies, Flatten;
    if posts != [] && posts[|posts| - 1] == [] {
      var front := posts[..|posts| - 1];
      EmptyLast(posts);
      forall i | 0 <= i < |front| ensures front[i] == posts[i] {}
      if front != [] {
        assert EndsPlain(front[|front| - 1]);
      }
      FewestWholePosts(lines, front);
    } else {
      FewestWholePosts(lines, posts);
    }
  }

  lemma EmptyLast(posts: seq<Post>)
    requires posts != [] && posts[|posts| - 1] == []
    ensures Flatten(posts[..|posts| - 1]) == Flatten(posts)
  {
    var front := posts[..|posts| - 1];
    assert posts == front + [[]];
    FlattenLast(front, []);
    assert Flatten(front) + [] == Flatten(front);
  }

  lemma FewestWholePosts(lines: seq<Line>, posts: seq<Post>)
    requires Flatten(posts) == lines
    requires forall i | 0 <= i < |posts| :: posts[i] != [] && Weight(posts[i]) <= 280
    requires forall i | 0 <= i < |posts| - 1 :: EndsPlain(posts[i])
    ensures |Replies(lines)| <= |posts|
  {
    hide Weight, Blocks, Replies, Flatten, FlattenGroups;
    var groups := BlocksOfEach(posts);
    BlocksOfPosts(posts);
    forall i | 0 <= i < |groups| ensures groups[i] != [] && Weight(Flatten(groups[i])) <= LIMIT {
      BlocksOfOne(posts[i]);
    }
    FewestPosts(lines, groups);
  }

  lemma BlocksOfOne(p: Post)
    requires p != []
    ensures Blocks(p) != [] && Flatten(Blocks(p)) == p
  {
    BlocksKeepLines(p);
  }
}
