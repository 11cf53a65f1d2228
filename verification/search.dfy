/**
 The pure tail of findTweets: the per-tag results and the mention results are
 concatenated, reversed so that the oldest post comes first, filtered down to
 posts newer than the user's last post and not written by the user, and the
 surviving identifiers are printed one per line.
 */
module Search {
  import opened Text

  /** The fields of a post the program reads. Timestamps are modelled as
      integers ordered like the instants they stand for. */
  datatype Post = Post(id: nat, createdAt: int, fromUser: string)

  /** list.reverse(). */
  function Reverse<T>(s: seq<T>): (r: seq<T>)
    ensures |r| == |s|
    ensures forall i :: 0 <= i < |s| ==> r[i] == s[|s| - 1 - i]
  {
    if |s| == 0 then [] else Reverse(s[1..]) + [s[0]]
  }

  lemma {:induction false} ReverseAppend<T>(a: seq<T>, b: seq<T>)
    ensures Reverse(a + b) == Reverse(b) + Reverse(a)
  {
    var l, r := Reverse(a + b), Reverse(b) + Reverse(a);
    assert |l| == |r|;
    forall i | 0 <= i < |l| ensures l[i] == r[i] {
      if i < |b| {
        assert r[i] == b[|b| - 1 - i];
      } else {
        assert r[i] == Reverse(a)[i - |b|];
      }
    }
  }

  /** The results of the per-tag queries, one after the other. */
  function Flatten(lists: seq<seq<Post>>): (r: seq<Post>)
    ensures forall i, p :: 0 <= i < |lists| && p in lists[i] ==> p in r
    ensures forall p :: p in r ==> exists i :: 0 <= i < |lists| && p in lists[i]
  {
    if |lists| == 0 then [] else lists[0] + Flatten(lists[1..])
  }

  function TotalLength(lists: seq<seq<Post>>): nat {
    if |lists| == 0 then 0 else |lists[0]| + TotalLength(lists[1..])
  }

  lemma {:induction false} FlattenLength(lists: seq<seq<Post>>)
    ensures |Flatten(lists)| == TotalLength(lists)
  {
    if |lists| > 0 {
      FlattenLength(lists[1..]);
    }
  }

  /** The posts gathered by the per-tag loop and the mention query, oldest
      first: the extended list, reversed. Every fetched post is gathered as
      often as the queries returned it, and nothing else is (CollectOrder
      gives the order). */
  function Collect(tagResults: seq<seq<Post>>, mentions: seq<Post>): (r: seq<Post>)
    ensures multiset(r) == multiset(Flatten(tagResults)) + multiset(mentions)
    ensures forall p :: p in r <==> p in Flatten(tagResults) || p in mentions
  {
    var fetched := Flatten(tagResults) + mentions;
    ReverseMultiset(fetched);
    ReverseMembers(fetched);
    Reverse(fetched)
  }

  /** A post is kept when it is newer than the user's last post and was not
      written by the user. */
  predicate Fresh(p: Post, createdAfter: int, user: string) {
    p.createdAt > createdAfter && p.fromUser != user
  }

  /** The filtering loop of findTweets. */
  function Select(posts: seq<Post>, createdAfter: int, user: string): (r: seq<Post>)
    ensures |r| <= |posts|
    ensures forall i :: 0 <= i < |r| ==> Fresh(r[i], createdAfter, user)
    ensures forall i :: 0 <= i < |posts| && Fresh(posts[i], createdAfter, user) ==> posts[i] in r
    ensures forall p :: p in r ==> p in posts
  {
    if |posts| == 0 then []
    else (if Fresh(posts[0], createdAfter, user) then [posts[0]] else [])
         + Select(posts[1..], createdAfter, user)
  }

  /** `xs` is `ys` with some elements left out, the rest in their order. */
  predicate IsSubsequence<T(==)>(xs: seq<T>, ys: seq<T>)
    decreases |ys|
  {
    || |xs| == 0
    || (&& |ys| > 0
        && ((xs[0] == ys[0] && IsSubsequence(xs[1..], ys[1..])) || IsSubsequence(xs, ys[1..])))
  }

  /** Filtering keeps the surviving posts in their original order. */
  lemma {:induction false} SelectIsSubsequence(posts: seq<Post>, createdAfter: int, user: string)
    ensures IsSubsequence(Select(posts, createdAfter, user), posts)
  {
    if |posts| > 0 {
      SelectIsSubsequence(posts[1..], createdAfter, user);
      var rest := Select(posts[1..], createdAfter, user);
      if Fresh(posts[0], createdAfter, user) {
        assert Select(posts, createdAfter, user) == [posts[0]] + rest;
        assert ([posts[0]] + rest)[1..] == rest;
      } else {
        assert Select(posts, createdAfter, user) == rest;
      }
    }
  }

  /** Filtering a concatenation filters each part. */
  lemma {:induction false} SelectAppend(a: seq<Post>, b: seq<Post>, createdAfter: int, user: string)
    ensures Select(a + b, createdAfter, user) == Select(a, createdAfter, user) + Select(b, createdAfter, user)
  {
    if |a| > 0 {
      assert (a + b)[1..] == a[1..] + b;
      SelectAppend(a[1..], b, createdAfter, user);
    } else {
      assert a + b == b;
    }
  }

  /** Filtering commutes with reversal. */
  lemma {:induction false} SelectReverse(posts: seq<Post>, createdAfter: int, user: string)
    ensures Select(Reverse(posts), createdAfter, user) == Reverse(Select(posts, createdAfter, user))
  {
    if |posts| > 0 {
      var head := Select([posts[0]], createdAfter, user);
      SelectReverse(posts[1..], createdAfter, user);
      SelectAppend(Reverse(posts[1..]), [posts[0]], createdAfter, user);
      assert posts == [posts[0]] + posts[1..];
      SelectAppend([posts[0]], posts[1..], createdAfter, user);
      ReverseAppend(head, Select(posts[1..], createdAfter, user));
      assert Reverse(head) == head;
    }
  }

  /** The identifiers of the selected posts, as `str(tweet.id)`: one decimal
      numeral per post, in order, without a leading zero, each reading back
      as that post's id. */
  function IdStrings(posts: seq<Post>): (r: seq<string>)
    ensures |r| == |posts|
    ensures forall i :: 0 <= i < |r| ==> |r[i]| > 0 && (r[i][0] == '0' ==> |r[i]| == 1)
    ensures forall i :: 0 <= i < |r| ==> AllDigits(r[i]) && DecimalValue(r[i]) == posts[i].id
  {
    if |posts| == 0 then []
    else
      DecimalRoundTrip(posts[0].id);
      [NatToString(posts[0].id)] + IdStrings(posts[1..])
  }

  /** What `if ids: print "\n".join(ids)` writes: nothing for an empty list,
      otherwise the identifiers joined by newlines and the newline `print`
      adds. When no identifier holds a newline, splitting the output before
      its final newline gives the identifiers back. */
  function Output(ids: seq<string>): (r: string)
    ensures r == "" <==> |ids| == 0
    ensures |ids| > 0 ==> r[|r| - 1] == '\n'
    ensures |ids| > 0 && (forall i :: 0 <= i < |ids| ==> '\n' !in ids[i]) ==>
      Split(r[..|r| - 1], '\n') == ids
  {
    if |ids| == 0 then ""
    else
      var out := Join(ids, "\n") + "\n";
      assert out[..|out| - 1] == Join(ids, "\n");
      if forall i :: 0 <= i < |ids| ==> '\n' !in ids[i] then
        SplitJoin(ids, '\n');
        out
      else out
  }

  /** The output is empty exactly when no post survives; otherwise it ends in
      a newline, its lines are the identifiers of the surviving posts in
      order, and each line reads back as its post's id. */
  lemma OutputLines(posts: seq<Post>)
    ensures Output(IdStrings(posts)) == "" <==> |posts| == 0
    ensures |posts| > 0 ==>
      var out := Output(IdStrings(posts));
      && out[|out| - 1] == '\n'
      && Split(out[..|out| - 1], '\n') == IdStrings(posts)
    ensures forall i :: 0 <= i < |posts| ==> DecimalValue(IdStrings(posts)[i]) == posts[i].id
  {
  }

  /** The posts whose ids findTweets prints, given the results of the tag
      queries in tag order and of the mention query. */
  function Selection(tagResults: seq<seq<Post>>, mentions: seq<Post>, createdAfter: int, user: string): (r: seq<Post>)
    ensures forall i :: 0 <= i < |r| ==> Fresh(r[i], createdAfter, user)
    ensures forall p :: p in r ==> p in Flatten(tagResults) || p in mentions
  {
    Select(Collect(tagResults, mentions), createdAfter, user)
  }

  /** Reversal keeps exactly the same members. */
  lemma ReverseMembers<T>(s: seq<T>)
    ensures forall x :: x in Reverse(s) <==> x in s
  {
    var r := Reverse(s);
    forall x | x in s ensures x in r {
      var k :| 0 <= k < |s| && s[k] == x;
      assert r[|s| - 1 - k] == x;
    }
    forall x | x in r ensures x in s {
      var k :| 0 <= k < |r| && r[k] == x;
      assert s[|s| - 1 - k] == x;
    }
  }

  /** Filtering keeps every fresh post as many times as it occurs and drops
      every other post entirely: a post fetched by two queries is kept twice. */
  lemma {:induction false} SelectCounts(posts: seq<Post>, createdAfter: int, user: string)
    ensures forall p :: multiset(Select(posts, createdAfter, user))[p]
                     == if Fresh(p, createdAfter, user) then multiset(posts)[p] else 0
  {
    if |posts| > 0 {
      SelectCounts(posts[1..], createdAfter, user);
      assert posts == [posts[0]] + posts[1..];
      assert multiset(posts) == multiset([posts[0]]) + multiset(posts[1..]);
      var head := if Fresh(posts[0], createdAfter, user) then [posts[0]] else [];
      assert Select(posts, createdAfter, user) == head + Select(posts[1..], createdAfter, user);
      assert multiset(Select(posts, createdAfter, user))
          == multiset(head) + multiset(Select(posts[1..], createdAfter, user));
    }
  }

  /** Reversal keeps every element with its multiplicity. */
  lemma {:induction false} ReverseMultiset<T>(s: seq<T>)
    ensures multiset(Reverse(s)) == multiset(s)
  {
    if |s| > 0 {
      ReverseMultiset(s[1..]);
      assert Reverse(s) == Reverse(s[1..]) + [s[0]];
      assert s == [s[0]] + s[1..];
    }
  }

  /** Each fresh fetched post is selected as often as the queries returned
      it, and no other post is selected at all. */
  lemma SelectionCounts(tagResults: seq<seq<Post>>, mentions: seq<Post>, createdAfter: int, user: string)
    ensures forall p :: multiset(Selection(tagResults, mentions, createdAfter, user))[p]
                     == if Fresh(p, createdAfter, user) then multiset(Flatten(tagResults) + mentions)[p] else 0
  {
    SelectCounts(Collect(tagResults, mentions), createdAfter, user);
    ReverseMultiset(Flatten(tagResults) + mentions);
  }

  /** The selection is the fresh posts among everything fetched, in reverse
      fetch order: it keeps the order of the collected list, never grows
      beyond what was fetched, and holds no self-authored or stale post
      (SelectionCounts adds how often each post is selected). */
  lemma SelectionSpec(tagResults: seq<seq<Post>>, mentions: seq<Post>, createdAfter: int, user: string)
    ensures var r := Selection(tagResults, mentions, createdAfter, user);
      && r == Reverse(Select(Flatten(tagResults) + mentions, createdAfter, user))
      && IsSubsequence(r, Collect(tagResults, mentions))
      && |r| <= TotalLength(tagResults) + |mentions|
      && (forall i :: 0 <= i < |r| ==> r[i].fromUser != user && r[i].createdAt > createdAfter)
  {
    SelectReverse(Flatten(tagResults) + mentions, createdAfter, user);
    SelectIsSubsequence(Collect(tagResults, mentions), createdAfter, user);
    FlattenLength(tagResults);
  }

  /** Every fresh fetched post is selected, and nothing else is. */
  lemma SelectionMembers(tagResults: seq<seq<Post>>, mentions: seq<Post>, createdAfter: int, user: string)
    ensures forall p :: p in Selection(tagResults, mentions, createdAfter, user)
                    <==> (p in Flatten(tagResults) + mentions && Fresh(p, createdAfter, user))
  {
  }

  /** The mention results come first, oldest first, followed by the tag
      results, last tag first. */
  lemma CollectOrder(tagResults: seq<seq<Post>>, mentions: seq<Post>)
    ensures Collect(tagResults, mentions) == Reverse(mentions) + Reverse(Flatten(tagResults))
  {
    ReverseAppend(Flatten(tagResults), mentions);
  }

  predicate NewestFirst(s: seq<Post>) {
    forall i, j :: 0 <= i < j < |s| ==> s[i].createdAt >= s[j].createdAt
  }

  predicate OldestFirst(s: seq<Post>) {
    forall i, j :: 0 <= i < j < |s| ==> s[i].createdAt <= s[j].createdAt
  }

  /** When the fetched posts arrive newest first overall, the reversed list
      is oldest first; the concatenation of separately sorted query results
      is not sorted in general, so this holds only under that premise. */
  lemma ReverseOrdersOldestFirst(s: seq<Post>)
    requires NewestFirst(s)
    ensures OldestFirst(Reverse(s))
  {
  }

  /** The filter on the reversed example list of ExampleFilter. */
  lemma ExampleSelect()
    ensures Select([Post(1, 99, "dave"), Post(2, 101, "carol"), Post(3, 102, "bob"), Post(4, 103, "alice")], 100, "alice")
         == [Post(2, 101, "carol"), Post(3, 102, "bob")]
  {
    var rev := [Post(1, 99, "dave"), Post(2, 101, "carol"), Post(3, 102, "bob"), Post(4, 103, "alice")];
    assert rev[1..][1..][1..] == [Post(4, 103, "alice")];
  }

  /** Four fetched posts, newest first, against a last post at time 100 by
      alice: her own post and the stale one are dropped, the two others come
      out oldest first. */
  lemma ExampleFilter()
    ensures var fetched := [Post(4, 103, "alice"), Post(3, 102, "bob"), Post(2, 101, "carol"), Post(1, 99, "dave")];
      Selection([fetched], [], 100, "alice") == [Post(2, 101, "carol"), Post(3, 102, "bob")]
  {
    var fetched := [Post(4, 103, "alice"), Post(3, 102, "bob"), Post(2, 101, "carol"), Post(1, 99, "dave")];
    assert Flatten([fetched]) + [] == fetched;
    var rev := [Post(1, 99, "dave"), Post(2, 101, "carol"), Post(3, 102, "bob"), Post(4, 103, "alice")];
    assert Reverse(fetched) == rev;
    assert Collect([fetched], []) == rev;
    ExampleSelect();
  }
}
