/**
 * The `Tweet` class of run.js: an immutable record of one submitted message
 * and the HTML fragment it renders to. Every field is interpolated into the
 * markup verbatim; nothing is escaped.
 */
module Tweets {
  import opened Options
  import opened Text

  /** A JavaScript `Date`, as the milliseconds since the epoch it holds. */
  datatype Date = Date(epochMillis: int)

  /**
   * `Date.prototype.toLocaleTimeString`, whose result depends on the host's
   * locale and time zone; the caller supplies it.
   */
  type TimeFormatter = Date -> string

  /** The five private fields `#name`, `#tweet`, `#latitude`, `#longitude` and `#date`. */
  datatype Tweet = Tweet(name: string, text: string, latitude: string, longitude: string, date: Date)

  const DivStyle: string := "style=\"border:1px grey; border-style: none none solid none; none none none none; padding: 100px\""
  const TweetStyle: string := "style=\"font-size:30px; margin: 10px; color: white;\""
  const NameStyle: string := "style=\"font-size:15px; margin: 10px; color: white;\""

  /** The inline style attributes of a fragment's outer, message and attribution `<div>`s. */
  datatype Styles = Styles(outer: string, message: string, attribution: string)
  {
    function Open(): string { "<div " + outer + ">" }
    function TextOpen(): string { "<div " + message + ">" }
    function NameOpen(): string { "<div " + attribution + ">" }
  }

  /** The private fields `#divStyle`, `#tweetStyle` and `#nameStyle`. */
  const TweetStyles: Styles := Styles(DivStyle, TweetStyle, NameStyle)

  const Close: string := "</div>"
  const Bar: string := " | "

  /** The message line of a fragment: the text in its own styled `<div>`. */
  function TextLine(st: Styles, t: Tweet): string
  {
    st.TextOpen() + t.text + Close
  }

  /** The attribution line of a fragment: name, time of day and coordinates. */
  function NameLine(st: Styles, t: Tweet, time: string): string
  {
    st.NameOpen() + t.name + Bar + time + Bar + t.latitude + "," + t.longitude + Close
  }

  /** The markup `getHtml` builds, for any style attributes and formatted time. */
  function Markup(st: Styles, t: Tweet, time: string): string
  {
    st.Open() + TextLine(st, t) + NameLine(st, t, time) + Close
  }

  /** `Tweet.getHtml`. */
  function Html(t: Tweet, timeString: TimeFormatter): string
  {
    Markup(TweetStyles, t, timeString(t.date))
  }

  /** A fragment opens with the styled outer `<div>` and ends by closing it. */
  lemma HtmlShape(t: Tweet, timeString: TimeFormatter)
    ensures var r := Html(t, timeString);
      TweetStyles.Open() <= r && |r| >= |Close| && r[|r| - |Close|..] == Close
  {
    MarkupShape(TweetStyles, t, timeString(t.date));
  }

  lemma MarkupShape(st: Styles, t: Tweet, time: string)
    ensures var r := Markup(st, t, time);
      st.Open() <= r && |r| >= |Close| && r[|r| - |Close|..] == Close
  {
  }

  /**
   * The five interpolated values all appear verbatim in the fragment, without
   * overlapping, in the fixed order text, name, time, latitude, longitude.
   */
  lemma HtmlEmbedsFieldsInOrder(t: Tweet, timeString: TimeFormatter)
    ensures var r, time := Html(t, timeString), timeString(t.date);
      exists a: nat, b: nat, c: nat, d: nat, e: nat ::
        && a + |t.text| <= b && b + |t.name| <= c && c + |time| <= d && d + |t.latitude| < e
        && OccursAt(r, t.text, a) && OccursAt(r, t.name, b) && OccursAt(r, time, c)
        && OccursAt(r, t.latitude, d) && OccursAt(r, t.longitude, e)
        && OccursAt(r, t.latitude + "," + t.longitude, d)
  {
    var time := timeString(t.date);
    MarkupEmbedsFields(TweetStyles, t, time);
    assert Html(t, timeString) == Markup(TweetStyles, t, time);
  }

  lemma MarkupEmbedsFields(st: Styles, t: Tweet, time: string)
    ensures var r := Markup(st, t, time);
      exists a: nat, b: nat, c: nat, d: nat, e: nat ::
        && a + |t.text| <= b && b + |t.name| <= c && c + |time| <= d && d + |t.latitude| < e
        && OccursAt(r, t.text, a) && OccursAt(r, t.name, b) && OccursAt(r, time, c)
        && OccursAt(r, t.latitude, d) && OccursAt(r, t.longitude, e)
        && OccursAt(r, t.latitude + "," + t.longitude, d)
  {
    var r := Markup(st, t, time);
    var names := NameLine(st, t, time);
    LinesEmbed(st, t, time);
    NameLineEmbeds(st, t, time);
    NameLineSeparators(st, t, time);
    var a, n := |st.Open()| + |st.TextOpen()|, |st.Open()| + |TextLine(st, t)|;
    var b, c, d, e := |st.NameOpen()|, |st.NameOpen()| + |t.name| + |Bar|,
      |st.NameOpen()| + |t.name| + |Bar| + |time| + |Bar|,
      |st.NameOpen()| + |t.name| + |Bar| + |time| + |Bar| + |t.latitude| + 1;
    OccursTransitive(r, names, t.name, n, b);
    OccursTransitive(r, names, time, n, c);
    OccursTransitive(r, names, t.latitude, n, d);
    OccursTransitive(r, names, t.longitude, n, e);
    OccursTransitive(r, names, t.latitude + "," + t.longitude, n, d);
    assert a + |t.text| <= n + b;
    assert OccursAt(r, t.text, a) && OccursAt(r, t.name, n + b) && OccursAt(r, time, n + c)
      && OccursAt(r, t.latitude, n + d) && OccursAt(r, t.longitude, n + e)
      && OccursAt(r, t.latitude + "," + t.longitude, n + d);
  }

  /** Each of the five interpolated values is contained in the fragment. */
  lemma MarkupShowsFields(st: Styles, t: Tweet, time: string)
    ensures var r := Markup(st, t, time);
      && Contains(r, t.text) && Contains(r, t.name) && Contains(r, time)
      && Contains(r, t.latitude) && Contains(r, t.longitude)
  {
    MarkupEmbedsFields(st, t, time);
  }

  /** Where the message text and the attribution line sit inside the fragment. */
  lemma LinesEmbed(st: Styles, t: Tweet, time: string)
    ensures OccursAt(Markup(st, t, time), t.text, |st.Open()| + |st.TextOpen()|)
    ensures OccursAt(Markup(st, t, time), NameLine(st, t, time), |st.Open()| + |TextLine(st, t)|)
    ensures |TextLine(st, t)| == |st.TextOpen()| + |t.text| + |Close|
  {
  }

  /** Where the name, time and coordinates sit inside the attribution line. */
  lemma NameLineEmbeds(st: Styles, t: Tweet, time: string)
    ensures var names, open := NameLine(st, t, time), st.NameOpen();
      && OccursAt(names, t.name, |open|)
      && OccursAt(names, time, |open| + |t.name| + |Bar|)
      && OccursAt(names, t.latitude, |open| + |t.name| + |Bar| + |time| + |Bar|)
      && OccursAt(names, t.longitude, |open| + |t.name| + |Bar| + |time| + |Bar| + |t.latitude| + 1)
  {
  }

  /**
   * The separators of the attribution line: ` | ` after the name and after the
   * time, and a bare comma joining latitude and longitude.
   */
  lemma NameLineSeparators(st: Styles, t: Tweet, time: string)
    ensures var names, n := NameLine(st, t, time), |st.NameOpen()| + |t.name|;
      && OccursAt(names, Bar, n)
      && OccursAt(names, Bar, n + |Bar| + |time|)
      && OccursAt(names, ",", n + |Bar| + |time| + |Bar| + |t.latitude|)
      && OccursAt(names, t.latitude + "," + t.longitude, n + |Bar| + |time| + |Bar|)
  {
  }

  /**
   * A reader for the message text of a fragment drawn with the given styles:
   * what follows the two opening tags, up to the first closing tag.
   */
  function TextIn(st: Styles, html: string): Option<string>
  {
    var head := st.Open() + st.TextOpen();
    if head <= html then Some(Before(html[|head|..], Close)) else None
  }

  /** The message text of a rendered tweet, read back from its fragment. */
  function TextOf(html: string): Option<string>
  {
    TextIn(TweetStyles, html)
  }

  /** The part of a fragment after its two opening tags. */
  lemma MarkupAfterHead(st: Styles, t: Tweet, time: string)
    ensures var head, r := st.Open() + st.TextOpen(), Markup(st, t, time);
      head <= r && r[|head|..] == t.text + Close + (NameLine(st, t, time) + Close)
  {
    var names := NameLine(st, t, time);
    Regroup6(st.Open(), st.TextOpen(), t.text, Close, names, Close);
  }

  /**
   * The reader returns the message text up to the first `</div>` that starts
   * in it or right after it, at index `n`.
   */
  lemma TextReadBack(t: Tweet, timeString: TimeFormatter, n: nat)
    requires n <= |t.text| && OccursAt(t.text + Close, Close, n)
    requires forall i: nat :: i < n ==> !OccursAt(t.text + Close, Close, i)
    ensures TextOf(Html(t, timeString)) == Some(t.text[..n])
  {
    var time := timeString(t.date);
    var rest := NameLine(TweetStyles, t, time) + Close;
    var s := t.text + Close + rest;
    MarkupAfterHead(TweetStyles, t, time);
    OccursExtend(t.text + Close, Close, n, rest);
    forall i: nat | i < n
      ensures !OccursAt(s, Close, i)
    {
      if OccursAt(s, Close, i) {
        OccursInPrefix(t.text + Close, rest, Close, i);
      }
    }
    BeforeAt(s, Close, n);
    assert s[..n] == t.text[..n];
  }

  /** A message text that does not contain `</div>` is read back exactly from its fragment. */
  lemma TextRoundTrip(t: Tweet, timeString: TimeFormatter)
    requires !Contains(t.text, Close)
    ensures TextOf(Html(t, timeString)) == Some(t.text)
  {
    var s := t.text + Close;
    OccursAtEnd(t.text, Close);
    forall i: nat | i < |t.text|
      ensures !OccursAt(s, Close, i)
    {
      if OccursAt(s, Close, i) {
        if i + |Close| <= |t.text| {
          OccursInPrefix(t.text, Close, Close, i);
        } else {
          CloseDoesNotStraddle(t.text, i);
        }
      }
    }
    TextReadBack(t, timeString, |t.text|);
    assert t.text[..|t.text|] == t.text;
  }

  /**
   * `<` starts `</div>` and occurs nowhere else in it, so no occurrence of the
   * tag starts inside a text and runs into a `</div>` appended to it.
   */
  lemma CloseDoesNotStraddle(x: string, i: nat)
    requires i < |x| < i + |Close|
    ensures !OccursAt(x + Close, Close, i)
  {
    var k := |x| - i;
    assert (x + Close)[i + k] == '<' != Close[k];
    if i + |Close| <= |x + Close| {
      assert (x + Close)[i..i + |Close|][k] != Close[k];
    }
  }

  /**
   * Because nothing is escaped, a `</div>` inside a message text cuts what the
   * reader `TextOf` takes back out of the fragment: it returns exactly the part
   * before the first such tag, not the text.
   */
  lemma CloseTagInTextCutsReadBack(t: Tweet, timeString: TimeFormatter, x: string, z: string)
    requires t.text == x + Close + z
    requires forall i: nat :: i < |x| ==> !OccursAt(x + Close, Close, i)
    ensures TextOf(Html(t, timeString)) == Some(x) && x != t.text
  {
    var s := t.text + Close;
    Regroup4(x, Close, z, Close);
    assert s == (x + Close) + (z + Close);
    OccursAtEnd(x, Close);
    OccursExtend(x + Close, Close, |x|, z + Close);
    forall i: nat | i < |x|
      ensures !OccursAt(s, Close, i)
    {
      if OccursAt(s, Close, i) {
        OccursInPrefix(x + Close, z + Close, Close, i);
      }
    }
    TextReadBack(t, timeString, |x|);
    assert t.text[..|x|] == x;
  }

  /**
   * Because coordinates are joined with a bare comma, a comma inside the
   * latitude cannot be told apart from the separator: moving the part after it
   * into the longitude renders the same fragment.
   */
  lemma CommaInLatitudeIsAmbiguous(t: Tweet, timeString: TimeFormatter, x: string, y: string)
    requires t.latitude == x + "," + y
    ensures Html(t, timeString) == Html(t.(latitude := x, longitude := y + "," + t.longitude), timeString)
  {
    // Dafny also finds this equality unaided, but the regrouping below halves
    // the proof's cost and keeps it steady across solver seeds.
    var u := t.(latitude := x, longitude := y + "," + t.longitude);
    var time := timeString(t.date);
    var p := TweetStyles.NameOpen() + t.name + Bar + time + Bar;
    Regroup7(p, x, ",", y, ",", t.longitude, Close);
    assert NameLine(TweetStyles, t, time) == NameLine(TweetStyles, u, time);
    assert TextLine(TweetStyles, t) == TextLine(TweetStyles, u);
  }
}
