/**
 * The `TweetList` class of run.js: an accumulator that appends each added
 * tweet's fragment, wrapped in its own `<div>`, to a string buffer opened by
 * a styled wrapper `<div>`, and counts the additions. Rendering closes the
 * wrapper, or yields the empty string when nothing was added.
 */
module TweetLists {
  import opened Text
  import opened Tweets

  const ListStyle: string := "style=\"border:1px grey; border-style: none solid none solid; width:600px; display: inline-block; margin: 0 auto;\""
  const ElemStyle: string := "style=\"\""

  const LineClose: string := "</div>\n"

  /**
   * The markup of a list, for given style attributes of the wrapper `<div>`
   * and of each entry's `<div>`.
   */
  datatype ListStyles = ListStyles(list: string, elem: string)
  {
    /** The wrapper's opening tag, as `#initHtml` writes it. */
    function Open(): string
    {
      "<div " + list + ">\n"
    }

    /** One tweet's fragment as `addTweet` wraps it. */
    function Wrap(fragment: string): string
    {
      "<div " + elem + ">\n" + fragment + LineClose
    }

    /** The wrapped fragments, in the order they were added. */
    function Joined(fragments: seq<string>): string
    {
      if fragments == [] then "" else Joined(fragments[..|fragments| - 1]) + Wrap(fragments[|fragments| - 1])
    }

    /** What `getHtml` yields for a list to which `fragments` were added, in this order. */
    function Render(fragments: seq<string>): string
    {
      if fragments == [] then "" else Open() + Joined(fragments) + LineClose
    }
  }

  /** The private fields `#listStyle` and `#elemStyle`. */
  const TweetListStyles: ListStyles := ListStyles(ListStyle, ElemStyle)

  class TweetList {
    /** `#listStyle` and `#elemStyle`. */
    const styles: ListStyles
    /** `#tweets`: the markup accumulated so far. */
    var buffer: string
    /** `#numTweets`: how many tweets were added. */
    var count: nat
    /** The fragments of the added tweets, in call order. */
    ghost var Fragments: seq<string>

    ghost predicate Valid()
      reads this
    {
      buffer == styles.Open() + styles.Joined(Fragments) && count == |Fragments|
    }

    constructor ()
      ensures Valid() && Fragments == [] && styles == TweetListStyles
      ensures buffer == styles.Open() && count == 0
    {
      styles := TweetListStyles;
      buffer := "";
      count := 0;
      Fragments := [];
      new;
      InitHtml();
    }

    /** `#initHtml`: opens the wrapper `<div>`. */
    method InitHtml()
      requires buffer == [] && count == 0 && Fragments == []
      modifies this`buffer
      ensures buffer == old(buffer) + styles.Open()
      ensures Valid()
    {
      buffer := buffer + "<div " + styles.list + ">\n";
    }

    /** `addTweet`: appends the wrapped fragment of `t` and counts it. */
    method AddTweet(t: Tweet, timeString: TimeFormatter)
      requires Valid()
      modifies this
      ensures Valid()
      ensures Fragments == old(Fragments) + [Html(t, timeString)]
      ensures buffer == old(buffer) + styles.Wrap(Html(t, timeString))
      ensures count == old(count) + 1
    {
      var elemOpen := "<div " + styles.elem + ">\n";
      var fragment := Html(t, timeString);
      buffer := buffer + elemOpen;
      buffer := buffer + fragment;
      buffer := buffer + LineClose;
      count := count + 1;
      Fragments := Fragments + [fragment];
      Regroup4(old(buffer), elemOpen, fragment, LineClose);
      assert Fragments[..|Fragments| - 1] == old(Fragments);
      assert styles.Joined(Fragments) == styles.Joined(old(Fragments)) + styles.Wrap(fragment);
      Regroup4(styles.Open(), styles.Joined(old(Fragments)), styles.Wrap(fragment), "");
      assert styles.Wrap(fragment) + "" == styles.Wrap(fragment);
    }

    /** `getHtml`: the rendered list; it changes nothing. */
    method GetHtml() returns (html: string)
      requires Valid()
      ensures html == styles.Render(Fragments)
      ensures html == "" <==> count == 0
    {
      if count == 0 {
        return "";
      }
      html := buffer + LineClose;
    }
  }

  /** The list renders as the empty string exactly when nothing was added. */
  lemma RenderEmptyIff(ls: ListStyles, fragments: seq<string>)
    ensures ls.Render(fragments) == "" <==> fragments == []
  {
    if fragments != [] {
      assert |ls.Render(fragments)| >= |ls.Open()| > 0;
    }
  }

  /**
   * Call order is output order: the wrapped fragment of the `k`-th addition
   * follows those of all earlier additions, and the later ones come after it.
   */
  lemma {:induction false} JoinedInCallOrder(ls: ListStyles, fragments: seq<string>, k: nat)
    requires k < |fragments|
    ensures ls.Joined(fragments[..k]) + ls.Wrap(fragments[k]) <= ls.Joined(fragments)
  {
    var n := |fragments| - 1;
    assert fragments[..|fragments|][..n] == fragments[..n];
    if k == n {
      assert fragments[..n] == fragments[..|fragments| - 1];
    } else {
      assert fragments[..n][..k] == fragments[..k];
      JoinedInCallOrder(ls, fragments[..n], k);
    }
  }

  /**
   * After at least one addition the rendering opens with the wrapper's
   * opening tag and ends with its closing tag.
   */
  lemma RenderWrapped(ls: ListStyles, fragments: seq<string>)
    requires fragments != []
    ensures var r := ls.Render(fragments);
      ls.Open() <= r && |r| >= |LineClose| && r[|r| - |LineClose|..] == LineClose
  {
    var r := ls.Render(fragments);
    assert r == ls.Open() + ls.Joined(fragments) + LineClose;
    assert r[..|ls.Open()|] == ls.Open();
  }

  /**
   * The wrapped fragment of the `k`-th addition sits in the rendering right
   * after the wrapper's opening tag and the fragments of all earlier additions.
   */
  lemma RenderPlacesFragment(ls: ListStyles, fragments: seq<string>, k: nat)
    requires k < |fragments|
    ensures OccursAt(ls.Render(fragments), ls.Wrap(fragments[k]), |ls.Open()| + |ls.Joined(fragments[..k])|)
  {
    var open := ls.Open();
    var before := ls.Joined(fragments[..k]);
    var w := ls.Wrap(fragments[k]);
    var all := ls.Joined(fragments);
    JoinedInCallOrder(ls, fragments, k);
    assert all == before + w + all[|before + w|..];
    OccursAtEnd(before, w);
    OccursExtend(before + w, w, |before|, all[|before + w|..]);
    OccursPrepend(open, all, w, |before|);
    OccursExtend(open + all, w, |open| + |before|, LineClose);
  }

  /** The fragment of an earlier addition ends no later than that of a later one starts. */
  lemma EarlierBeforeLater(ls: ListStyles, fragments: seq<string>, j: nat, k: nat)
    requires j < k < |fragments|
    ensures |ls.Joined(fragments[..j])| + |ls.Wrap(fragments[j])| <= |ls.Joined(fragments[..k])|
  {
    assert fragments[..k][..j] == fragments[..j];
    assert fragments[..k][j] == fragments[j];
    JoinedInCallOrder(ls, fragments[..k], j);
  }

  /** The first addition's wrapped fragment comes right after the wrapper's opening tag. */
  lemma RenderStartsWithFirst(ls: ListStyles, fragments: seq<string>)
    requires fragments != []
    ensures ls.Open() + ls.Wrap(fragments[0]) <= ls.Render(fragments)
  {
    JoinedInCallOrder(ls, fragments, 0);
    assert fragments[..0] == [];
    assert ls.Joined(fragments[..0]) + ls.Wrap(fragments[0]) == ls.Wrap(fragments[0]);
    PrefixConcat(ls.Open(), ls.Wrap(fragments[0]), ls.Joined(fragments), LineClose);
  }

  /** Whatever a fragment contains, the rendering of a list it was added to contains. */
  lemma RenderContains(ls: ListStyles, fragments: seq<string>, k: nat, pat: string)
    requires k < |fragments| && Contains(fragments[k], pat)
    ensures Contains(ls.Render(fragments), pat)
  {
    var fragment := fragments[k];
    var elemOpen := "<div " + ls.elem + ">\n";
    RenderPlacesFragment(ls, fragments, k);
    OccursAtEnd(elemOpen, fragment);
    OccursExtend(elemOpen + fragment, fragment, |elemOpen|, LineClose);
    ContainsTransitive(ls.Wrap(fragment), fragment, pat, |elemOpen|);
    ContainsTransitive(ls.Render(fragments), ls.Wrap(fragment), pat, |ls.Open()| + |ls.Joined(fragments[..k])|);
  }
}
