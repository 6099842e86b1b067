/** Character records as the autocomplete holds them, the raw records the
    character directory answers with, and the pure helpers that turn one into
    the other and label a character's episode count. Both component files
    share these definitions. */
module Characters {

  /** A character as held in the results list and in the selection. Its
      `episode` entries are episode ids, the last path segment of each URL. */
  datatype Character = Character(id: int, name: string, image: string, episode: seq<string>)

  /** One item of the directory's `results` array: `episode` still holds the
      full episode URLs. */
  datatype RawCharacter = RawCharacter(id: int, name: string, image: string, episode: seq<string>)

  /** How an issued request settles: the parsed `results` array, or any
      network or parse failure (all of them land in the same catch block). */
  datatype FetchOutcome = Fetched(results: seq<RawCharacter>) | FetchFailed

  /** The only error text the component ever shows. */
  const FetchErrorMessage: string := "Error fetching characters"

  /** The text after the last '/' of `url`, which is `url.split('/').at(-1)`:
      the longest suffix without a '/'. */
  function LastSegment(url: string): (segment: string)
    ensures '/' !in segment
    ensures |segment| <= |url| && url[|url| - |segment|..] == segment
    ensures |segment| == |url| || url[|url| - |segment| - 1] == '/'
    ensures '/' !in url ==> segment == url
  {
    if url == [] then []
    else if url[|url| - 1] == '/' then []
    else LastSegment(url[..|url| - 1]) + [url[|url| - 1]]
  }

  /** Joining a prefix and a slash-free segment with '/' and taking the last
      segment gives the segment back. */
  lemma {:induction false} LastSegmentOfJoin(prefix: string, segment: string)
    requires '/' !in segment
    ensures LastSegment(prefix + ['/'] + segment) == segment
  {
    var url := prefix + ['/'] + segment;
    if segment != [] {
      var init := segment[..|segment| - 1];
      assert url[..|url| - 1] == prefix + ['/'] + init;
      assert segment[|segment| - 1] in segment;
      LastSegmentOfJoin(prefix, init);
      assert init + [segment[|segment| - 1]] == segment;
    }
  }

  /** `item.episode.map(episode => episode.split('/').at(-1))`: one id per
      URL, in the same order. */
  function EpisodeIds(urls: seq<string>): (ids: seq<string>)
    ensures |ids| == |urls|
    ensures forall i :: 0 <= i < |urls| ==> ids[i] == LastSegment(urls[i])
  {
    seq(|urls|, i requires 0 <= i < |urls| => LastSegment(urls[i]))
  }

  /** The record the fetch effect builds from one raw item. */
  function FromRaw(item: RawCharacter): (c: Character)
    ensures c.id == item.id && c.name == item.name && c.image == item.image
    ensures c.episode == EpisodeIds(item.episode)
    ensures |c.episode| == |item.episode|
    ensures forall i :: 0 <= i < |c.episode| ==> '/' !in c.episode[i]
  {
    Character(item.id, item.name, item.image, EpisodeIds(item.episode))
  }

  /** `response.data.results.map(...)`: the new results list, one character
      per raw item, in the directory's order. */
  function MapResults(items: seq<RawCharacter>): (cs: seq<Character>)
    ensures |cs| == |items|
    ensures forall i :: 0 <= i < |items| ==> cs[i] == FromRaw(items[i])
  {
    seq(|items|, i requires 0 <= i < |items| => FromRaw(items[i]))
  }

  predicate IsDigits(s: string) {
    forall i :: 0 <= i < |s| ==> '0' <= s[i] <= '9'
  }

  function DigitChar(d: nat): char
    requires d < 10
  {
    ('0' as int + d) as char
  }

  /** The decimal numeral JavaScript prints for a non-negative integer:
      digits only, never empty, and no leading zero except for "0" itself. */
  function DecimalString(n: nat): (s: string)
    ensures |s| >= 1 && IsDigits(s)
    ensures s[0] == '0' ==> n == 0 && s == "0"
  {
    if n < 10 then [DigitChar(n)] else DecimalString(n / 10) + [DigitChar(n % 10)]
  }

  /** The number a string of decimal digits denotes. */
  function DecimalValue(s: string): nat
    requires IsDigits(s)
  {
    if s == [] then 0 else DecimalValue(s[..|s| - 1]) * 10 + (s[|s| - 1] as int - '0' as int)
  }

  lemma {:induction false} DecimalRoundTrip(n: nat)
    ensures DecimalValue(DecimalString(n)) == n
  {
    if n >= 10 {
      DecimalRoundTrip(n / 10);
      var s := DecimalString(n);
      assert s[..|s| - 1] == DecimalString(n / 10);
    }
  }

  /** The label under a character's name: `${n} Episode${n > 1 ? 's' : ''}`.
      It starts with a numeral that reads back as the count, the word is
      "Episode", and it takes a plural 's' exactly when the count exceeds
      one, so 0 and 1 are both singular. */
  function EpisodeLabel(count: nat): (text: string)
    ensures var digits := DecimalString(count);
      && |digits| + 8 <= |text|
      && text[..|digits|] == digits && DecimalValue(digits) == count
      && text[|digits|..|digits| + 8] == " Episode"
      && |text| == |digits| + (if count > 1 then 9 else 8)
      && (text[|text| - 1] == 's' <==> count > 1)
  {
    DecimalRoundTrip(count);
    DecimalString(count) + " Episode" + (if count > 1 then "s" else "")
  }
}
