/**
 * One scraped listing and how it is read off a listing card
 * (the `jobCards.map(...)` expression of both scrapers).
 */
module Records {
  import opened Wrappers

  /** The seven-string object built for every card. `link` is its identity. */
  datatype Record = Record(
    title: string,
    location: string,
    salary: string,
    recruiter: string,
    description: string,
    link: string,
    date: string)

  /**
   * What one `.lister__item` card shows: for each field the `innerText` of its
   * element, or None when `querySelector` finds no element. For `link` it is the
   * anchor's `href` instead of its text.
   */
  datatype Card = Card(
    title: Option<string>,
    location: Option<string>,
    salary: Option<string>,
    recruiter: Option<string>,
    description: Option<string>,
    link: Option<string>,
    date: Option<string>)

  const NoTitle := "No Title"
  const NoLocation := "No Location"
  const NoSalary := "No Salary"
  const NoRecruiter := "No Recruiter"
  const NoDescription := "No Description"
  const NoLink := "No Link"
  const NoDate := "No Date Posted"

  /**
   * The characters `String.prototype.trim` removes: ECMAScript WhiteSpace
   * (tab, VT, FF, space, NBSP, ZWNBSP and the Zs category) and LineTerminator.
   */
  predicate IsWhite(c: char) {
    || c == '\t' || c == '\n' || c == '\U{000B}' || c == '\U{000C}' || c == '\r'
    || c == ' ' || c == '\U{00A0}' || c == '\U{1680}'
    || ('\U{2000}' <= c <= '\U{200A}')
    || c == '\U{2028}' || c == '\U{2029}' || c == '\U{202F}' || c == '\U{205F}'
    || c == '\U{3000}' || c == '\U{FEFF}'
  }

  /** Neither end of `s` is white space. */
  predicate IsTrimmed(s: string) {
    s == [] || (!IsWhite(s[0]) && !IsWhite(s[|s| - 1]))
  }

  /** Every character of `s` is white space (in particular, the empty string is). */
  predicate AllWhite(s: string) {
    forall i :: 0 <= i < |s| ==> IsWhite(s[i])
  }

  /** `s` without its leading white space. */
  function TrimStart(s: string): (r: string) {
    if s != [] && IsWhite(s[0]) then TrimStart(s[1..]) else s
  }

  /** `s` without its trailing white space. */
  function TrimEnd(s: string): (r: string) {
    if s != [] && IsWhite(s[|s| - 1]) then TrimEnd(s[..|s| - 1]) else s
  }

  /** `String.prototype.trim`. */
  function Trim(s: string): (r: string) {
    TrimEnd(TrimStart(s))
  }

  /** TrimStart keeps a suffix of `s` whose cut-off part is all white, and stops at a non-white character. */
  lemma {:induction false} TrimStartCuts(s: string)
    ensures var r := TrimStart(s);
      && |r| <= |s| && r == s[|s| - |r|..]
      && (r == [] || !IsWhite(r[0]))
      && (forall i :: 0 <= i < |s| - |r| ==> IsWhite(s[i]))
  {
    if s != [] && IsWhite(s[0]) {
      TrimStartCuts(s[1..]);
      var r := TrimStart(s);
      forall i | 0 <= i < |s| - |r| ensures IsWhite(s[i]) {
        if i > 0 { assert s[i] == s[1..][i - 1]; }
      }
    }
  }

  /** TrimEnd keeps a prefix of `s` whose cut-off part is all white, and stops at a non-white character. */
  lemma {:induction false} TrimEndCuts(s: string)
    ensures var r := TrimEnd(s);
      && |r| <= |s| && r == s[..|r|]
      && (r == [] || !IsWhite(r[|r| - 1]))
      && (forall i :: |r| <= i < |s| ==> IsWhite(s[i]))
  {
    if s != [] && IsWhite(s[|s| - 1]) {
      TrimEndCuts(s[..|s| - 1]);
      var r := TrimEnd(s);
      forall i | |r| <= i < |s| ensures IsWhite(s[i]) {
        if i < |s| - 1 { assert s[i] == s[..|s| - 1][i]; }
      }
    }
  }

  /**
   * Trim keeps one contiguous piece `s[k..][..|r|]` of `s`, everything before
   * and after which is white space, and the piece has no white space at either
   * end; so it is empty exactly when `s` is all white space.
   */
  lemma TrimSpec(s: string)
    ensures var r := Trim(s);
      && IsTrimmed(r)
      && (r == [] <==> AllWhite(s))
      && exists k :: 0 <= k <= |s| - |r| && s[k..][..|r|] == r
           && (forall i :: 0 <= i < k ==> IsWhite(s[i]))
           && (forall i :: k + |r| <= i < |s| ==> IsWhite(s[i]))
  {
    var t := TrimStart(s);
    var r := TrimEnd(t);
    TrimStartCuts(s);
    TrimEndCuts(t);
    var k := |s| - |t|;
    assert s[k..][..|r|] == r;
    forall i | k + |r| <= i < |s| ensures IsWhite(s[i]) {
      assert s[i] == t[i - k];
    }
    if r != [] {
      assert r[0] == t[0];
    } else {
      assert t == [];
    }
  }

  /** `el?.innerText.trim() || sentinel`: the trimmed text, or the sentinel when there is none. */
  function Text(el: Option<string>, sentinel: string): (r: string) {
    if el.Some? && Trim(el.value) != "" then Trim(el.value) else sentinel
  }

  /** `el?.href || 'No Link'`: the href as it is (not trimmed), or the sentinel when absent or empty. */
  function Href(el: Option<string>): (r: string) {
    if el.Some? && el.value != "" then el.value else NoLink
  }

  /** The record the page builds for one card. */
  function ExtractRecord(c: Card): (r: Record) {
    Record(
      Text(c.title, NoTitle),
      Text(c.location, NoLocation),
      Text(c.salary, NoSalary),
      Text(c.recruiter, NoRecruiter),
      Text(c.description, NoDescription),
      Href(c.link),
      Text(c.date, NoDate))
  }

  /** The records of all cards of a page, in document order. */
  function ExtractPage(cards: seq<Card>): (r: seq<Record>) {
    if cards == [] then [] else [ExtractRecord(cards[0])] + ExtractPage(cards[1..])
  }

  /** Trimming an already trimmed string changes nothing; in particular trim is idempotent. */
  lemma TrimOfTrimmed(s: string)
    requires IsTrimmed(s)
    ensures Trim(s) == s
  {
    if s != [] {
      assert TrimStart(s) == s;
      assert TrimEnd(s) == s;
    }
  }

  /**
   * What `el?.innerText.trim() || sentinel` promises of the value `v` of a text
   * field: it is non-empty and carries no surrounding white space; it is the
   * sentinel when the element is missing or its text is all white space, and
   * the element's trimmed text otherwise.
   */
  ghost predicate TextDefault(el: Option<string>, sentinel: string, v: string) {
    && v != "" && IsTrimmed(v)
    && (el.None? ==> v == sentinel)
    && (el.Some? && AllWhite(el.value) ==> v == sentinel)
    && (el.Some? && !AllWhite(el.value) ==> v == Trim(el.value))
  }

  /** Field defaulting, for any non-empty trimmed sentinel. */
  lemma TextDefaulting(el: Option<string>, sentinel: string)
    requires sentinel != "" && IsTrimmed(sentinel)
    ensures TextDefault(el, sentinel, Text(el, sentinel))
  {
    if el.Some? {
      TrimSpec(el.value);
    }
  }

  /**
   * What the card map promises of the record built for card `c`: every text
   * field keeps TextDefault with its own sentinel; the link is never empty, is
   * the anchor's href when there is a non-empty one, and is 'No Link' exactly
   * when the anchor is missing, its href is empty or is that very text.
   */
  ghost predicate Defaults(c: Card, r: Record) {
    && TextDefault(c.title, NoTitle, r.title)
    && TextDefault(c.location, NoLocation, r.location)
    && TextDefault(c.salary, NoSalary, r.salary)
    && TextDefault(c.recruiter, NoRecruiter, r.recruiter)
    && TextDefault(c.description, NoDescription, r.description)
    && TextDefault(c.date, NoDate, r.date)
    && r.link != ""
    && (c.link.Some? && c.link.value != "" ==> r.link == c.link.value)
    && (r.link == NoLink <==> c.link.None? || c.link.value == "" || c.link.value == NoLink)
  }

  /** The sentinels are non-empty and carry no surrounding white space. */
  lemma SentinelsTrimmed()
    ensures IsTrimmed(NoTitle) && IsTrimmed(NoLocation) && IsTrimmed(NoSalary) && IsTrimmed(NoRecruiter)
    ensures IsTrimmed(NoDescription) && IsTrimmed(NoDate)
  {
  }

  /** The record built for one card keeps the defaulting promises. */
  lemma ExtractRecordDefaults(c: Card)
    ensures Defaults(c, ExtractRecord(c))
  {
    SentinelsTrimmed();
    TextDefaulting(c.title, NoTitle);
    TextDefaulting(c.location, NoLocation);
    TextDefaulting(c.salary, NoSalary);
    TextDefaulting(c.recruiter, NoRecruiter);
    TextDefaulting(c.description, NoDescription);
    TextDefaulting(c.date, NoDate);
  }

  /** The card map: one record per card, in document order, each keeping the defaulting promises. */
  lemma {:induction false} ExtractPageDefaults(cards: seq<Card>)
    ensures |ExtractPage(cards)| == |cards|
    ensures forall i :: 0 <= i < |cards| ==> Defaults(cards[i], ExtractPage(cards)[i])
  {
    if cards != [] {
      ExtractRecordDefaults(cards[0]);
      ExtractPageDefaults(cards[1..]);
      var r := ExtractPage(cards);
      forall i | 0 <= i < |cards| ensures Defaults(cards[i], r[i]) {
        if i > 0 { assert cards[i] == cards[1..][i - 1] && r[i] == ExtractPage(cards[1..])[i - 1]; }
      }
    }
  }
}
