/** The bookmark list kept in the browser. The only operation is the
    explicit toggle of one comic: remove its bookmark if there is one,
    otherwise append a new bookmark at the end. */
module Bookmarks {

  datatype Bookmark = Bookmark(slug: string, title: string, image: string)

  predicate Present(b: seq<Bookmark>, slug: string) {
    exists i :: 0 <= i < |b| && b[i].slug == slug
  }

  /** No two bookmarks share a slug. */
  predicate Unique(b: seq<Bookmark>) {
    forall i, j :: 0 <= i < j < |b| ==> b[i].slug != b[j].slug
  }

  /** The bookmarks of every other comic, in order. */
  function Others(b: seq<Bookmark>, slug: string): (r: seq<Bookmark>)
    ensures forall x :: x in r <==> x in b && x.slug != slug
    decreases |b|
  {
    if |b| == 0 then []
    else
      var rest := Others(b[1..], slug);
      assert forall x :: x in b <==> x == b[0] || x in b[1..];
      if b[0].slug == slug then rest else [b[0]] + rest
  }

  lemma {:induction false} OthersAppend(a: seq<Bookmark>, c: seq<Bookmark>, slug: string)
    ensures Others(a + c, slug) == Others(a, slug) + Others(c, slug)
    decreases |a|
  {
    if |a| > 0 {
      assert (a + c)[1..] == a[1..] + c;
      OthersAppend(a[1..], c, slug);
    } else {
      assert a + c == c;
    }
  }

  /** `bookmarks.findIndex(b => b.slug === slug)`. */
  function IndexOf(b: seq<Bookmark>, slug: string): (r: int)
    ensures -1 <= r < |b|
    ensures r == -1 <==> !Present(b, slug)
    ensures r >= 0 ==> b[r].slug == slug && forall k :: 0 <= k < r ==> b[k].slug != slug
    decreases |b|
  {
    if |b| == 0 then -1
    else if b[0].slug == slug then 0
    else
      var r := IndexOf(b[1..], slug);
      assert forall k :: 1 <= k < |b| ==> b[k] == b[1..][k - 1];
      if r == -1 then -1 else r + 1
  }

  /** `toggleBookmark(slug, title, image)`: the first bookmark of the comic
      is spliced out when there is one; otherwise a new bookmark is pushed. */
  function Toggle(b: seq<Bookmark>, slug: string, title: string, image: string): (r: seq<Bookmark>)
    // no other comic's bookmark is touched, nor their order
    ensures Others(r, slug) == Others(b, slug)
    ensures !Present(b, slug) ==> r == b + [Bookmark(slug, title, image)]
    ensures Present(b, slug) ==> |r| == |b| - 1
    ensures Unique(b) ==> Unique(r)
    // on a list without duplicates the comic's membership flips
    ensures Unique(b) ==> (Present(r, slug) <==> !Present(b, slug))
  {
    var idx := IndexOf(b, slug);
    if idx > -1 then
      RemoveFirst(b, slug, idx);
      b[..idx] + b[idx + 1..]
    else
      AppendNew(b, Bookmark(slug, title, image));
      b + [Bookmark(slug, title, image)]
  }

  lemma RemoveFirst(b: seq<Bookmark>, slug: string, idx: int)
    requires 0 <= idx < |b| && b[idx].slug == slug
    ensures var r := b[..idx] + b[idx + 1..];
      && Others(r, slug) == Others(b, slug)
      && |r| == |b| - 1
      && (Unique(b) ==> Unique(r) && !Present(r, slug))
  {
    var pre, post := b[..idx], b[idx + 1..];
    assert b == (pre + [b[idx]]) + post;
    assert Others([b[idx]], slug) == [] by {
      assert [b[idx]][1..] == [];
    }
    calc {
      Others(b, slug);
      { OthersAppend(pre + [b[idx]], post, slug); }
      Others(pre + [b[idx]], slug) + Others(post, slug);
      { OthersAppend(pre, [b[idx]], slug); }
      Others(pre, slug) + Others(post, slug);
      { OthersAppend(pre, post, slug); }
      Others(pre + post, slug);
    }
    if Unique(b) {
      RemoveFirstUnique(b, slug, idx);
    }
  }

  lemma RemoveFirstUnique(b: seq<Bookmark>, slug: string, idx: int)
    requires 0 <= idx < |b| && b[idx].slug == slug && Unique(b)
    ensures var r := b[..idx] + b[idx + 1..];
      Unique(r) && !Present(r, slug)
  {
    var r := b[..idx] + b[idx + 1..];
    assert forall k :: 0 <= k < |r| ==> r[k] == b[if k < idx then k else k + 1];
    forall i, j | 0 <= i < j < |r|
      ensures r[i].slug != r[j].slug
    {
      var i', j' := if i < idx then i else i + 1, if j < idx then j else j + 1;
      assert r[i] == b[i'] && r[j] == b[j'] && i' < j';
    }
    forall k | 0 <= k < |r|
      ensures r[k].slug != slug
    {
      var k' := if k < idx then k else k + 1;
      assert r[k] == b[k'] && k' != idx;
    }
  }

  lemma AppendNew(b: seq<Bookmark>, nb: Bookmark)
    requires !Present(b, nb.slug)
    ensures var r := b + [nb];
      && Others(r, nb.slug) == Others(b, nb.slug)
      && (Unique(b) ==> Unique(r))
      && Present(r, nb.slug)
  {
    var r := b + [nb];
    OthersAppend(b, [nb], nb.slug);
    assert Others([nb], nb.slug) == [] by {
      assert [nb][1..] == [];
    }
    assert r[|b|] == nb;
  }

  /** Toggling a comic that was not bookmarked, then toggling it again,
      gives back exactly the original list. */
  lemma ToggleTwiceAbsent(b: seq<Bookmark>, slug: string, title: string, image: string,
                          title2: string, image2: string)
    requires !Present(b, slug)
    ensures Toggle(Toggle(b, slug, title, image), slug, title2, image2) == b
  {
    var b1 := b + [Bookmark(slug, title, image)];
    assert b1[|b|].slug == slug;
    assert forall k :: 0 <= k < |b| ==> b1[k] == b[k];
    assert IndexOf(b1, slug) == |b|;
    assert b1[..|b|] == b;
  }

  /** Toggling a bookmarked comic twice on a list without duplicates moves
      its bookmark to the end, carrying the values given to the second toggle. */
  lemma ToggleTwicePresent(b: seq<Bookmark>, slug: string, title: string, image: string)
    requires Unique(b) && Present(b, slug)
    ensures Toggle(Toggle(b, slug, title, image), slug, title, image) == Others(b, slug) + [Bookmark(slug, title, image)]
  {
    var b1 := Toggle(b, slug, title, image);
    assert !Present(b1, slug);
    OthersNoop(b1, slug);
  }

  lemma {:induction false} OthersNoop(b: seq<Bookmark>, slug: string)
    requires !Present(b, slug)
    ensures Others(b, slug) == b
    decreases |b|
  {
    if |b| > 0 {
      assert !Present(b[1..], slug) by {
        assert forall k :: 1 <= k < |b| ==> b[k] == b[1..][k - 1];
      }
      OthersNoop(b[1..], slug);
      assert b == [b[0]] + b[1..];
    }
  }
}
