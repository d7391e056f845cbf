/**
  The pure helpers of the Redbee-to-XMLTV exporter (main.py): the XMLTV
  timestamp formatter, the EPG component lookup, the episode-title parser
  and the mapping of one schedule asset to one XMLTV programme record.
 */
module Epg {
  import opened Wrappers
  import opened PyStr

  // ===========================================================================
  // format_date
  // ===========================================================================

  /** The characters `format_date` deletes from an ISO-8601 instant. */
  const IsoSeparators: set<char> := {':', '-', 'T', 'Z'}

  /** The zone that every XMLTV instant is written in. */
  const UtcSuffix: string := " +0000"

  /** `format_date`: ISO-8601 to the XMLTV form `YYYYMMDDHHMMSS +0000`, by four
      `replace(c, "")` calls in the order `:`, `-`, `T`, `Z` and the suffix. */
  function FormatDate(iso: string): string {
    RemoveChar(RemoveChar(RemoveChar(RemoveChar(iso, ':'), '-'), 'T'), 'Z') + UtcSuffix
  }

  /** The result is the input with every `:`, `-`, `T` and `Z` deleted, the
      other characters kept in order, followed by " +0000". */
  lemma FormatDateDeletesSeparators(iso: string)
    ensures FormatDate(iso) == Without(iso, IsoSeparators) + UtcSuffix
  {
    RemoveEachDeletes(iso, [':', '-', 'T', 'Z']);
    assert (set c | c in [':', '-', 'T', 'Z']) == IsoSeparators;
  }

  /** The order of the four `replace` calls does not matter: any chain that
      deletes exactly these four characters gives the same instant. */
  lemma FormatDateOrderFree(iso: string, order: seq<char>)
    requires (set c | c in order) == IsoSeparators
    ensures RemoveEach(iso, order) + UtcSuffix == FormatDate(iso)
  {
    RemoveEachDeletes(iso, order);
    FormatDateDeletesSeparators(iso);
  }

  /** The result always ends in " +0000"; everything before that suffix is
      free of separators; and it is six characters longer than the input
      minus the separators deleted from it. */
  lemma FormatDateShape(iso: string)
    ensures var r := FormatDate(iso);
      && |r| == |iso| - CountIn(iso, IsoSeparators) + 6
      && r[|r| - 6..] == UtcSuffix
      && forall k :: 0 <= k < |r| - 6 ==> r[k] !in IsoSeparators
  {
    FormatDateDeletesSeparators(iso);
    WithoutLength(iso, IsoSeparators);
  }

  /** A run of decimal digits. */
  predicate IsDigits(s: string) {
    forall k :: 0 <= k < |s| ==> '0' <= s[k] <= '9'
  }

  /** The ISO-8601 UTC instant `YYYY-MM-DDTHH:MM:SSZ` with the given fields. */
  function IsoInstant(year: string, month: string, day: string,
                      hour: string, minute: string, second: string): string
  {
    year + "-" + month + "-" + day + "T" + hour + ":" + minute + ":" + second + "Z"
  }

  /** Round trip: an ISO-8601 UTC instant formats to its digits, in order,
      followed by " +0000". */
  lemma FormatDateOfIsoInstant(year: string, month: string, day: string,
                               hour: string, minute: string, second: string)
    requires IsDigits(year) && IsDigits(month) && IsDigits(day)
    requires IsDigits(hour) && IsDigits(minute) && IsDigits(second)
    ensures FormatDate(IsoInstant(year, month, day, hour, minute, second))
         == year + month + day + hour + minute + second + UtcSuffix
  {
    IsoInstantDigits(year, month, day, hour, minute, second);
    FormatDateDeletesSeparators(IsoInstant(year, month, day, hour, minute, second));
  }

  /** Deleting the separators from an ISO-8601 UTC instant leaves its digits. */
  lemma IsoInstantDigits(year: string, month: string, day: string,
                         hour: string, minute: string, second: string)
    requires IsDigits(year) && IsDigits(month) && IsDigits(day)
    requires IsDigits(hour) && IsDigits(minute) && IsDigits(second)
    ensures Without(IsoInstant(year, month, day, hour, minute, second), IsoSeparators)
         == year + month + day + hour + minute + second
  {
    WithoutNone(year, IsoSeparators);
    var t := year;
    t := AppendField(t, '-', month);
    t := AppendField(t, '-', day);
    t := AppendField(t, 'T', hour);
    t := AppendField(t, ':', minute);
    t := AppendField(t, ':', second);
    WithoutAppend(t, "Z", IsoSeparators);
    assert t + "Z" == IsoInstant(year, month, day, hour, minute, second);
  }

  /** One step of the round trip: a separator and a field of digits. */
  lemma AppendField(t: string, sep: char, field: string) returns (t': string)
    requires sep in IsoSeparators && IsDigits(field)
    ensures t' == t + [sep] + field
    ensures Without(t', IsoSeparators) == Without(t, IsoSeparators) + field
  {
    t' := t + [sep] + field;
    WithoutAppend(t + [sep], field, IsoSeparators);
    WithoutAppend(t, [sep], IsoSeparators);
    WithoutNone(field, IsoSeparators);
  }

  /** The example of the XMLTV format: 2025-07-31T18:30:00Z. */
  lemma FormatDateExample(iso: string)
    requires iso == "2025-07-31T18:30:00Z"
    ensures FormatDate(iso) == "20250731183000 +0000"
  {
    assert iso == "2025" + "-" + "07" + "-" + "31" + "T" + "18" + ":" + "30" + ":" + "00" + "Z";
    assert "2025" + "07" + "31" + "18" + "30" + "00" + UtcSuffix == "20250731183000 +0000";
    FormatDateOfLayout(iso, "2025", "07", "31", "18", "30", "00");
  }

  /** FormatDateOfIsoInstant, for a string already known to be that instant. */
  lemma FormatDateOfLayout(iso: string, year: string, month: string, day: string,
                           hour: string, minute: string, second: string)
    requires iso == year + "-" + month + "-" + day + "T" + hour + ":" + minute + ":" + second + "Z"
    requires IsDigits(year) && IsDigits(month) && IsDigits(day)
    requires IsDigits(hour) && IsDigits(minute) && IsDigits(second)
    ensures FormatDate(iso) == year + month + day + hour + minute + second + UtcSuffix
  {
    FormatDateOfIsoInstant(year, month, day, hour, minute, second);
  }

  // ===========================================================================
  // get_epg_url
  // ===========================================================================

  /** One entry of a component blob's `components` list; a missing or null
      key is None. */
  datatype Component = Component(id: Option<string>, internalUrl: Option<string>)

  /** A channel's component blob: its `id` (always present) and its
      `components` list (None when the key is missing). */
  datatype ComponentBlob = ComponentBlob(id: string, components: Option<seq<Component>>)

  /** The id of the EPG generator component of the channel with id `channelId`. */
  function EpgComponentId(channelId: string): string {
    "generator-epg-" + channelId
  }

  /** The `internalUrl` of the first component whose id is `target` (None if
      that component has no `internalUrl`), or None when no component has it. */
  function FirstUrlFor(cs: seq<Component>, target: string): Option<string> {
    if cs == [] then None
    else if cs[0].id == Some(target) then cs[0].internalUrl
    else FirstUrlFor(cs[1..], target)
  }

  /** What `get_epg_url` returns for `blob`. */
  function EpgUrlOf(blob: ComponentBlob): Option<string> {
    FirstUrlFor(blob.components.GetOr([]), EpgComponentId(blob.id))
  }

  /** `get_epg_url`: scan the components in order, return at the first match. */
  method GetEpgUrl(blob: ComponentBlob) returns (url: Option<string>)
    ensures url == EpgUrlOf(blob)
  {
    var cs := blob.components.GetOr([]);
    var target := EpgComponentId(blob.id);
    var i := 0;
    while i < |cs|
      invariant 0 <= i <= |cs|
      invariant FirstUrlFor(cs[i..], target) == FirstUrlFor(cs, target)
    {
      if cs[i].id == Some(target) {
        return cs[i].internalUrl;
      }
      assert cs[i..][1..] == cs[i + 1..];
      i := i + 1;
    }
    return None;
  }

  /** Component `i` is the first one whose id is `target`. */
  predicate FirstMatchAt(cs: seq<Component>, target: string, i: int) {
    && 0 <= i < |cs|
    && cs[i].id == Some(target)
    && forall j :: 0 <= j < i ==> cs[j].id != Some(target)
  }

  /** The first matching component decides the result: its `internalUrl`,
      or None when it has none; later components are not looked at. */
  lemma {:induction false} FirstUrlForAt(cs: seq<Component>, target: string, i: int)
    requires FirstMatchAt(cs, target, i)
    ensures FirstUrlFor(cs, target) == cs[i].internalUrl
  {
    if i > 0 {
      assert FirstMatchAt(cs[1..], target, i - 1);
      FirstUrlForAt(cs[1..], target, i - 1);
    }
  }

  /** No matching component: the result is None. */
  lemma {:induction false} FirstUrlForNoMatch(cs: seq<Component>, target: string)
    requires forall j :: 0 <= j < |cs| ==> cs[j].id != Some(target)
    ensures FirstUrlFor(cs, target) == None
  {
    if cs != [] {
      FirstUrlForNoMatch(cs[1..], target);
    }
  }

  /** Conversely, a URL comes from the first matching component. */
  lemma {:induction false} FirstUrlForFound(cs: seq<Component>, target: string)
    requires FirstUrlFor(cs, target).Some?
    ensures exists i :: FirstMatchAt(cs, target, i) && cs[i].internalUrl == FirstUrlFor(cs, target)
  {
    if cs[0].id == Some(target) {
      assert FirstMatchAt(cs, target, 0);
    } else {
      FirstUrlForFound(cs[1..], target);
      var i :| FirstMatchAt(cs[1..], target, i) && cs[1..][i].internalUrl == FirstUrlFor(cs[1..], target);
      assert FirstMatchAt(cs, target, i + 1);
    }
  }

  /** Appending components after a match changes nothing. */
  lemma {:induction false} FirstUrlForIgnoresLater(cs: seq<Component>, more: seq<Component>, target: string, i: int)
    requires 0 <= i < |cs| && cs[i].id == Some(target)
    ensures FirstUrlFor(cs + more, target) == FirstUrlFor(cs, target)
  {
    if cs[0].id != Some(target) {
      assert (cs + more)[1..] == cs[1..] + more;
      FirstUrlForIgnoresLater(cs[1..], more, target, i - 1);
    }
  }

  /** `get_epg_url` in full: None when `components` is missing or empty or
      no component has the id "generator-epg-" + blob.id; otherwise the
      `internalUrl` (or None) of the first component that has it. */
  lemma EpgUrlOfCases(blob: ComponentBlob)
    ensures blob.components.None? || blob.components == Some([]) ==> EpgUrlOf(blob) == None
    ensures var cs := blob.components.GetOr([]);
      forall i :: FirstMatchAt(cs, EpgComponentId(blob.id), i) ==> EpgUrlOf(blob) == cs[i].internalUrl
    ensures var cs := blob.components.GetOr([]);
      (forall j :: 0 <= j < |cs| ==> cs[j].id != Some(EpgComponentId(blob.id))) ==> EpgUrlOf(blob) == None
  {
    var cs := blob.components.GetOr([]);
    var target := EpgComponentId(blob.id);
    forall i | FirstMatchAt(cs, target, i) ensures EpgUrlOf(blob) == cs[i].internalUrl {
      FirstUrlForAt(cs, target, i);
    }
    if forall j :: 0 <= j < |cs| ==> cs[j].id != Some(target) {
      FirstUrlForNoMatch(cs, target);
    }
  }

  /** The schedule path `build_epg` goes on to fetch for a channel: the EPG
      URL, unless it is None or empty, in which case the channel is skipped. */
  function SchedulePath(blob: ComponentBlob): (path: Option<string>)
    ensures path.Some? <==> EpgUrlOf(blob).Some? && EpgUrlOf(blob).value != ""
    ensures path.Some? ==> path == EpgUrlOf(blob)
  {
    match EpgUrlOf(blob)
    case Some(u) => if u == "" then None else Some(u)
    case None => None
  }

  // ===========================================================================
  // _parse_title
  // ===========================================================================

  /** `(title, season, episode)` as `_parse_title` returns them. */
  datatype ParsedTitle = ParsedTitle(title: string, season: string, episode: string)

  /** The split condition: more than two words, the first starting with S,
      the second with E. */
  predicate HasEpisodeTag(parts: seq<string>) {
    |parts| > 2 && StartsWith(parts[0], "S") && StartsWith(parts[1], "E")
  }

  /** `_parse_title`. */
  function ParseTitle(raw: string): (r: ParsedTitle)
    ensures NoSpace(r.season) && NoSpace(r.episode)
  {
    var parts := Split(Strip(raw));
    if HasEpisodeTag(parts) then
      ParsedTitle(Join(parts[2..]), SliceFrom(parts[0], 1), SliceFrom(parts[1], 1))
    else
      ParsedTitle(Strip(raw), "", "")
  }

  /** The split branch, in terms of the words of `raw` itself: the title is
      the words after the first two joined by single spaces, season and
      episode are the first two words without their leading letter. */
  lemma ParseTitleTagged(raw: string)
    requires HasEpisodeTag(Split(raw))
    ensures var ws := Split(raw);
      ParseTitle(raw) == ParsedTitle(Join(ws[2..]), ws[0][1..], ws[1][1..])
  {
    SplitStrip(raw);
  }

  /** In the split branch the title is not empty and splits into exactly the
      words of `raw` after the first two. */
  lemma ParseTitleTaggedTitle(raw: string)
    requires HasEpisodeTag(Split(raw))
    ensures ParseTitle(raw).title != [] && Split(ParseTitle(raw).title) == Split(raw)[2..]
  {
    ParseTitleTagged(raw);
    SplitJoin(Split(raw)[2..]);
    JoinEmptyIff(Split(raw)[2..]);
  }

  /** In the split branch nothing but whitespace is lost: the three parts
      reassemble into the words of `raw` joined by single spaces. */
  lemma ParseTitleTaggedReassembles(raw: string)
    requires HasEpisodeTag(Split(raw))
    ensures var r := ParseTitle(raw);
      "S" + r.season + " " + "E" + r.episode + " " + r.title == Join(Split(raw))
  {
    ParseTitleTagged(raw);
    JoinTagged(Split(raw));
  }

  lemma JoinTagged(ws: seq<string>)
    requires HasEpisodeTag(ws)
    ensures "S" + ws[0][1..] + " " + "E" + ws[1][1..] + " " + Join(ws[2..]) == Join(ws)
  {
    assert ws[1..][0] == ws[1] && ws[1..][1..] == ws[2..];
    assert ws[0] == "S" + ws[0][1..];
    assert ws[1] == "E" + ws[1][1..];
  }

  /** The fallback: the title is `raw` stripped at both ends and nothing
      else (inner whitespace is kept as it is), season and episode empty. */
  lemma ParseTitleUntagged(raw: string)
    requires !HasEpisodeTag(Split(raw))
    ensures ParseTitle(raw) == ParsedTitle(Strip(raw), "", "")
  {
    SplitStrip(raw);
  }

  /** The fallback result comes out exactly when the split condition fails. */
  lemma ParseTitleFallbackIff(raw: string)
    ensures ParseTitle(raw) == ParsedTitle(Strip(raw), "", "") <==> !HasEpisodeTag(Split(raw))
  {
    SplitStrip(raw);
    if HasEpisodeTag(Split(raw)) {
      ParseTitleTaggedTitle(raw);
      assert |Split(ParseTitle(raw).title)| < |Split(Strip(raw))|;
    }
  }

  /** In the split branch inner whitespace collapses: the only whitespace
      left in the title is single plain spaces between words. */
  lemma ParseTitleCollapsesSpace(raw: string, k: nat)
    requires HasEpisodeTag(Split(raw))
    requires k < |ParseTitle(raw).title| && IsSpace(ParseTitle(raw).title[k])
    ensures var t := ParseTitle(raw).title;
      t[k] == ' ' && 0 < k < |t| - 1 && !IsSpace(t[k - 1]) && !IsSpace(t[k + 1])
  {
    ParseTitleTagged(raw);
    JoinSingleSpaced(Split(raw)[2..], k);
  }

  /** A title written the way `_parse_title` reads it. */
  predicate IsNormalTitle(t: string) {
    Split(t) != [] && Join(Split(t)) == t
  }

  /** Round trip: "S<season> E<episode> <title>" parses back into its parts,
      for a season and episode without whitespace and a non-empty title of
      words separated by single spaces. */
  lemma ParseTitleOfTagged(season: string, episode: string, title: string)
    requires NoSpace(season) && NoSpace(episode) && IsNormalTitle(title)
    ensures ParseTitle("S" + season + " E" + episode + " " + title) == ParsedTitle(title, season, episode)
  {
    var raw := "S" + season + " E" + episode + " " + title;
    var ws := SplitOfTagged(season, episode, title);
    ParseTitleTagged(raw);
  }

  /** The words of "S<season> E<episode> <title>". */
  lemma SplitOfTagged(season: string, episode: string, title: string) returns (ws: seq<string>)
    requires NoSpace(season) && NoSpace(episode) && IsNormalTitle(title)
    ensures ws == Split("S" + season + " E" + episode + " " + title)
    ensures ws == ["S" + season, "E" + episode] + Split(title)
    ensures HasEpisodeTag(ws) && ws[0][1..] == season && ws[1][1..] == episode
  {
    var s := LetterWord('S', season);
    var e := LetterWord('E', episode);
    TaggedLayout(season, episode, title);
    SplitTwoWordsThen(s, e, title);
    ws := [s, e] + Split(title);
    EpisodeTagOf(season, episode, Split(title));
  }

  /** Two words, each followed by a space, then more text. */
  lemma SplitTwoWordsThen(w: string, v: string, t: string)
    requires IsWord(w) && IsWord(v)
    ensures Split(w + [' '] + (v + [' '] + t)) == [w, v] + Split(t)
  {
    SplitWordThen(v, t);
    SplitWordThen(w, v + [' '] + t);
    assert [w] + ([v] + Split(t)) == [w, v] + Split(t);
  }

  /** Words "S<season>", "E<episode>" and at least one more carry the tag. */
  lemma EpisodeTagOf(season: string, episode: string, rest: seq<string>)
    requires rest != []
    ensures var ws := ["S" + season, "E" + episode] + rest;
      HasEpisodeTag(ws) && ws[0][1..] == season && ws[1][1..] == episode
  {
    var ws := ["S" + season, "E" + episode] + rest;
    assert ws[0] == "S" + season && ws[1] == "E" + episode;
  }

  lemma TaggedLayout(season: string, episode: string, title: string)
    ensures "S" + season + " E" + episode + " " + title
         == ("S" + season) + [' '] + (("E" + episode) + [' '] + title)
  {
  }

  /** A letter followed by whitespace-free text is a single word. */
  lemma LetterWord(c: char, w: string) returns (word: string)
    requires !IsSpace(c) && NoSpace(w)
    ensures word == [c] + w && word[1..] == w
    ensures IsWord(word)
  {
    word := [c] + w;
    assert forall k :: 1 <= k < |word| ==> word[k] == w[k - 1];
  }

  /** A word, a space and more text: the word, then the words of the text. */
  lemma SplitWordThen(w: string, t: string)
    requires IsWord(w)
    ensures Split(w + [' '] + t) == [w] + Split(t)
  {
    SplitAtSpace(w, ' ', t);
    SplitWord(w);
  }

  /** A single word is a title in normal form. */
  lemma WordTitle(t: string)
    requires IsWord(t)
    ensures IsNormalTitle(t)
  {
    SplitWord(t);
  }

  /** ParseTitleOfTagged, for a string already known to have that layout. */
  lemma ParseTitleOfLayout(raw: string, season: string, episode: string, title: string)
    requires raw == "S" + season + " E" + episode + " " + title
    requires NoSpace(season) && NoSpace(episode) && IsWord(title)
    ensures ParseTitle(raw) == ParsedTitle(title, season, episode)
  {
    WordTitle(title);
    ParseTitleOfTagged(season, episode, title);
  }

  /** Only the leading letters are checked: "Sunday Evening News" is split. */
  lemma ParseTitleSundayEveningNews(raw: string)
    requires raw == "Sunday Evening News"
    ensures ParseTitle(raw) == ParsedTitle("News", "unday", "vening")
  {
    ParseTitleOfLayout(raw, "unday", "vening", "News");
  }

  lemma ParseTitleFriends(raw: string)
    requires raw == "S2 E20 Friends"
    ensures ParseTitle(raw) == ParsedTitle("Friends", "2", "20")
  {
    ParseTitleOfLayout(raw, "2", "20", "Friends");
  }

  /** Two words only: no split, even when they look like season and episode. */
  lemma ParseTitleTwoWords(a: string, b: string)
    requires IsWord(a) && IsWord(b)
    ensures ParseTitle(a + " " + b) == ParsedTitle(a + " " + b, "", "")
  {
    var raw := a + " " + b;
    SplitJoin([a, b]);
    assert Join([a, b]) == raw;
    ParseTitleUntagged(raw);
    JoinEnds([a, b]);
    StripTrimmed(raw);
  }

  lemma ParseTitleTheNews(raw: string)
    requires raw == "The News"
    ensures ParseTitle(raw) == ParsedTitle("The News", "", "")
  {
    assert raw == "The" + " " + "News";
    ParseTitleTwoWords("The", "News");
  }

  /** "S1 E2" has no third word, so it is not split. */
  lemma ParseTitleNoRest(raw: string)
    requires raw == "S1 E2"
    ensures ParseTitle(raw) == ParsedTitle("S1 E2", "", "")
  {
    assert raw == "S1" + " " + "E2";
    ParseTitleTwoWords("S1", "E2");
  }

  // ===========================================================================
  // build_epg: one asset to one programme
  // ===========================================================================

  datatype Image = Image(url: string)

  /** One entry of a channel schedule's `assets` list; `images` is None when
      the key is missing or null. */
  datatype Asset = Asset(title: string, description: string, startTime: string, endTime: string,
                         images: Option<seq<Image>>)

  /** The attributes and children of one `<programme>` element, text before
      serialisation. */
  datatype Programme = Programme(start: string, stop: string, channel: string,
                                 title: string, desc: string,
                                 seriesNumber: string, episodeNumber: string,
                                 icon: Option<string>)

  /** The `src` of the `<icon>` child: the first image's URL when `images`
      is present and non-empty (Python truthiness), else no icon. */
  function IconOf(images: Option<seq<Image>>): (icon: Option<string>)
    ensures icon.Some? <==> images.Some? && images.value != []
    ensures icon.Some? ==> icon.value == images.value[0].url
  {
    match images
    case Some(xs) => if xs == [] then None else Some(xs[0].url)
    case None => None
  }

  /** The programme `build_epg` appends for `asset` on channel `slug`;
      `escape` stands for `xml.sax.saxutils.escape`. */
  function ShapeProgramme(asset: Asset, slug: string, escape: string -> string): Programme {
    var parsed := ParseTitle(asset.title);
    Programme(FormatDate(asset.startTime), FormatDate(asset.endTime), slug,
              escape(parsed.title), escape(asset.description),
              parsed.season, parsed.episode, IconOf(asset.images))
  }

  /** Every shaped programme carries XMLTV instants, the channel's slug,
      whitespace-free series and episode numbers, and an icon exactly when
      the asset has an image. */
  lemma ShapeProgrammeWellFormed(asset: Asset, slug: string, escape: string -> string)
    ensures var p := ShapeProgramme(asset, slug, escape);
      && p.channel == slug
      && p.start == Without(asset.startTime, IsoSeparators) + UtcSuffix
      && p.stop == Without(asset.endTime, IsoSeparators) + UtcSuffix
      && NoSpace(p.seriesNumber) && NoSpace(p.episodeNumber)
      && (p.icon.Some? <==> asset.images.Some? && asset.images.value != [])
  {
    FormatDateDeletesSeparators(asset.startTime);
    FormatDateDeletesSeparators(asset.endTime);
  }

  /** Round trip through the whole record: an asset titled
      "S<season> E<episode> <title>" with ISO-8601 UTC instants yields a
      programme with that season, episode and (escaped) title and the
      instants' digits. */
  lemma ShapeProgrammeOfTagged(season: string, episode: string, title: string,
                               start: string, stop: string, desc: string,
                               images: Option<seq<Image>>, slug: string, escape: string -> string)
    requires NoSpace(season) && NoSpace(episode) && IsNormalTitle(title)
    requires |start| == 14 && IsDigits(start)
    requires |stop| == 14 && IsDigits(stop)
    ensures var asset := Asset("S" + season + " E" + episode + " " + title, desc,
                               CompactIso(start), CompactIso(stop), images);
      ShapeProgramme(asset, slug, escape)
        == Programme(start + UtcSuffix, stop + UtcSuffix, slug, escape(title), escape(desc),
                     season, episode, IconOf(images))
  {
    ParseTitleOfTagged(season, episode, title);
    FormatDateOfCompact(start);
    FormatDateOfCompact(stop);
  }

  /** The ISO-8601 UTC instant whose fourteen digits are `d`, YYYYMMDDHHMMSS. */
  function CompactIso(d: string): string
    requires |d| == 14
  {
    IsoInstant(d[..4], d[4..6], d[6..8], d[8..10], d[10..12], d[12..])
  }

  /** `format_date` recovers the fourteen digits of an instant. */
  lemma FormatDateOfCompact(d: string)
    requires |d| == 14 && IsDigits(d)
    ensures FormatDate(CompactIso(d)) == d + UtcSuffix
  {
    FormatDateOfIsoInstant(d[..4], d[4..6], d[6..8], d[8..10], d[10..12], d[12..]);
    assert d == d[..4] + d[4..6] + d[6..8] + d[8..10] + d[10..12] + d[12..];
  }
}
