/**
 * Seeding the store from `seed.csv`.
 *
 * A line is kept only when the whole of it matches the anchored pattern
 *   slug `[a-z0-9]+`, url, status `(un)?trusted`, since `\d+`, until `\d+`
 * joined by commas. No character class of the pattern admits a comma, so a
 * matching line has exactly five comma-separated fields and each capture is
 * exactly one field; the pattern is therefore stated as a split on commas
 * followed by one check per field.
 */
module SeedRows {
  import opened Wrappers
  import opened ShortcutDatabase

  // ---- character classes of the pattern ----

  predicate IsAsciiAlphanumeric(c: char) {
    ('a' <= c <= 'z') || ('A' <= c <= 'Z') || ('0' <= c <= '9')
  }

  /** `[a-z0-9]` */
  predicate IsSlugChar(c: char) {
    ('a' <= c <= 'z') || ('0' <= c <= '9')
  }

  /** `[-a-zA-Z0-9@:%._\+~#=]`, the host part of the URL. */
  predicate IsHostChar(c: char) {
    IsAsciiAlphanumeric(c)
    || c == '-' || c == '@' || c == ':' || c == '%' || c == '.' || c == '_' || c == '+' || c == '~' || c == '#' || c == '='
  }

  /** `[a-zA-Z0-9()]`, the top-level domain. */
  predicate IsTldChar(c: char) {
    IsAsciiAlphanumeric(c) || c == '(' || c == ')'
  }

  /** `[-a-zA-Z0-9()!@:%_\+.~#?&//=]`, the path, query and fragment after the domain. */
  predicate IsTailChar(c: char) {
    IsAsciiAlphanumeric(c) || IsTldChar(c)
    || c == '-' || c == '!' || c == '@' || c == ':' || c == '%' || c == '_' || c == '+' || c == '.'
    || c == '~' || c == '#' || c == '?' || c == '&' || c == '/' || c == '='
  }

  /** `\d`, restricted to ASCII digits. */
  predicate IsDigit(c: char) {
    '0' <= c <= '9'
  }

  /** `\w`, restricted to ASCII; `\b` below only ever compares ASCII characters. */
  predicate IsWordChar(c: char) {
    IsAsciiAlphanumeric(c) || c == '_'
  }

  /** `\b` between two adjacent characters. */
  predicate WordBoundary(before: char, after: char) {
    IsWordChar(before) != IsWordChar(after)
  }

  // ---- fields ----

  /** `[a-z0-9]+` */
  predicate IsSlug(s: string) {
    |s| > 0 && forall i :: 0 <= i < |s| ==> IsSlugChar(s[i])
  }

  /** `(un)?trusted` */
  predicate IsStatus(s: string) {
    s == "trusted" || s == "untrusted"
  }

  /** `\d+` */
  predicate IsDigits(s: string) {
    |s| > 0 && forall i :: 0 <= i < |s| ==> IsDigit(s[i])
  }

  /**
   * One way of reading `rest` (the URL after its scheme) as an optional
   * `www.` of length `w`, a host `rest[w..dot]` of 1 to 256 characters, a
   * dot, a top-level domain `rest[dot + 1..end]` of 1 to 6 characters and a
   * tail `rest[end..]`, with `\b` between the domain and what follows it.
   * A URL field is always followed by a comma in the line, so an empty tail
   * puts that comma after the domain.
   */
  predicate UrlSplit(rest: string, w: int, dot: int, end: int)
    requires 0 <= w < dot < end <= |rest|
  {
    && dot - w <= 256
    && rest[dot] == '.'
    && 1 <= end - (dot + 1) <= 6
    && (forall i :: w <= i < dot ==> IsHostChar(rest[i]))
    && (forall i :: dot < i < end ==> IsTldChar(rest[i]))
    && (forall i :: end <= i < |rest| ==> IsTailChar(rest[i]))
    && WordBoundary(rest[end - 1], if end < |rest| then rest[end] else ',')
  }

  /** The URL after its scheme, with the host starting at `w`. */
  predicate IsUrlFrom(rest: string, w: int)
    requires 0 <= w <= |rest|
  {
    exists dot, end | w < dot < end <= |rest| :: UrlSplit(rest, w, dot, end)
  }

  /** `(www\.)?` followed by host, dot, domain and tail. */
  predicate IsUrlRest(rest: string) {
    IsUrlFrom(rest, 0) || (|rest| >= 4 && rest[..4] == "www." && IsUrlFrom(rest, 4))
  }

  /** `https?://(www\.)?[...]{1,256}\.[...]{1,6}\b([...]*)` */
  predicate IsUrl(s: string) {
    var n := SchemeLength(s);
    n > 0 && IsUrlRest(s[n..])
  }

  /** The length of a leading `http://` or `https://`, or 0 when there is neither. */
  function SchemeLength(s: string): (n: int)
    ensures n == 0 || n == 7 || n == 8
    ensures n > 0 ==> |s| >= n
  {
    if |s| >= 7 && s[..7] == "http://" then 7
    else if |s| >= 8 && s[..8] == "https://" then 8
    else 0
  }

  /** The five checks of a seed row. */
  predicate IsValidEntry(e: Entry) {
    IsSlug(e.slug) && IsUrl(e.url) && IsStatus(e.status) && IsDigits(e.since) && IsDigits(e.until)
  }

  // ---- rows ----

  /** The pieces of `s` between commas; always at least one. */
  function Split(s: string): (r: seq<string>)
    ensures |r| >= 1
    ensures forall i :: 0 <= i < |r| ==> ',' !in r[i]
    decreases |s|
  {
    if s == [] then [""]
    else
      var rest := Split(s[1..]);
      if s[0] == ',' then [""] + rest
      else [[s[0]] + rest[0]] + rest[1..]
  }

  /** The pieces joined with commas. */
  function Join(fields: seq<string>): (line: string)
    requires |fields| >= 1
    decreases |fields|
  {
    if |fields| == 1 then fields[0] else fields[0] + "," + Join(fields[1..])
  }

  /** The five fields of an entry, in row order. */
  function Fields(e: Entry): (fields: seq<string>) {
    [e.slug, e.url, e.status, e.since, e.until]
  }

  /** An entry as one row: `slug,url,status,since,until`, with no quoting. */
  function Serialize(e: Entry): (line: string) {
    Join(Fields(e))
  }

  /** The line-17 pattern and the capture of its five named groups as an entry. */
  function ParseLine(line: string): (r: Option<Entry>)
    ensures r.Some? ==> IsValidEntry(r.value) && Serialize(r.value) == line
  {
    var fields := Split(line);
    if |fields| != 5 then None
    else
      var e := Entry(fields[0], fields[1], fields[2], fields[3], fields[4]);
      JoinSplit(line);
      assert Fields(e) == fields;
      if IsValidEntry(e) then Some(e) else None
  }

  lemma {:induction false} JoinSplit(s: string)
    ensures Join(Split(s)) == s
    decreases |s|
  {
    if s != [] {
      JoinSplit(s[1..]);
      var rest := Split(s[1..]);
      if s[0] != ',' && |rest| > 1 {
        assert Join(rest) == rest[0] + "," + Join(rest[1..]);
        assert ([[s[0]] + rest[0]] + rest[1..])[1..] == rest[1..];
      }
    }
  }

  /** Splitting text that starts with a comma-free piece glues that piece onto the first field. */
  lemma {:induction false} SplitCommaFreePrefix(a: string, t: string)
    requires ',' !in a
    ensures Split(a + t) == [a + Split(t)[0]] + Split(t)[1..]
    decreases |a|
  {
    if a == [] {
      assert a + t == t;
      assert a + Split(t)[0] == Split(t)[0];
    } else {
      assert (a + t)[1..] == a[1..] + t;
      assert a[0] != ',' && ',' !in a[1..];
      SplitCommaFreePrefix(a[1..], t);
      assert [a[0]] + (a[1..] + Split(t)[0]) == a + Split(t)[0];
    }
  }

  /** Joining comma-free pieces and splitting again gives the same pieces. */
  lemma {:induction false} SplitJoin(fields: seq<string>)
    requires |fields| >= 1
    requires forall i :: 0 <= i < |fields| ==> ',' !in fields[i]
    ensures Split(Join(fields)) == fields
    decreases |fields|
  {
    if |fields| == 1 {
      SplitCommaFreePrefix(fields[0], "");
      assert fields[0] + "" == fields[0];
    } else {
      var t := Join(fields[1..]);
      SplitJoin(fields[1..]);
      assert fields[0] + "," + t == fields[0] + ("," + t);
      SplitCommaFreePrefix(fields[0], "," + t);
      assert ("," + t)[1..] == t;
      assert Split("," + t) == [""] + fields[1..];
      assert fields[0] + "" == fields[0];
      assert [fields[0]] + fields[1..] == fields;
    }
  }

  lemma UrlHasNoComma(s: string)
    requires IsUrl(s)
    ensures ',' !in s
  {
    var p := SchemeLength(s);
    var rest := s[p..];
    var w := if IsUrlFrom(rest, 0) then 0 else 4;
    var dot, end :| w < dot < end <= |rest| && UrlSplit(rest, w, dot, end);
    forall i | 0 <= i < |s| ensures s[i] != ',' {
      if i >= p {
        var j := i - p;
        assert rest[j] == s[i];
        if j < w {
          assert rest[..4] == "www.";
          assert rest[j] == rest[..4][j];
        } else if j < dot {
        } else if j == dot {
        } else if j < end {
        } else {
        }
      } else {
        assert s[i] == s[..p][i];
      }
    }
  }

  /** A valid entry's fields hold no comma, so its row splits back into exactly those fields. */
  lemma ValidFieldsHaveNoComma(e: Entry)
    requires IsValidEntry(e)
    ensures forall i :: 0 <= i < 5 ==> ',' !in Fields(e)[i]
  {
    UrlHasNoComma(e.url);
    assert ',' !in e.status;
  }

  /** The row format: the five fields in order, joined by commas. */
  lemma SerializeFormat(e: Entry)
    ensures Serialize(e) == e.slug + "," + e.url + "," + e.status + "," + e.since + "," + e.until
  {
    var f := Fields(e);
    assert Join(f[4..]) == e.until;
    assert Join(f[3..]) == e.since + "," + e.until;
    assert Join(f[2..]) == e.status + "," + (e.since + "," + e.until);
    assert Join(f[1..]) == e.url + "," + (e.status + "," + (e.since + "," + e.until));
  }

  /** Completeness: the row of a valid entry is accepted and captures that same entry. */
  lemma ParseSerialize(e: Entry)
    requires IsValidEntry(e)
    ensures ParseLine(Serialize(e)) == Some(e)
  {
    ValidFieldsHaveNoComma(e);
    SplitJoin(Fields(e));
  }

  /** A row of comma-free fields that fails one of the field checks is dropped. */
  lemma SerializeInvalidRejected(e: Entry)
    requires forall i :: 0 <= i < 5 ==> ',' !in Fields(e)[i]
    requires !IsValidEntry(e)
    ensures ParseLine(Serialize(e)) == None
  {
    SplitJoin(Fields(e));
  }

  /** A line is accepted as `e` exactly when it is the row of `e` and `e` passes every field check. */
  lemma ParseLineExactly(line: string, e: Entry)
    ensures ParseLine(line) == Some(e) <==> IsValidEntry(e) && Serialize(e) == line
  {
    if IsValidEntry(e) && Serialize(e) == line {
      ParseSerialize(e);
    }
  }

  // ---- the seed file ----

  /** True when `line` is accepted and its entry goes under `slug`. */
  predicate StoresSlug(line: string, slug: string) {
    ParseLine(line).Some? && ParseLine(line).value.slug == slug
  }

  /**
   * The map `seeded()` builds from the lines of the seed file, line by line:
   * rejected lines are skipped and an accepted line is inserted under its
   * own slug, replacing what an earlier line put there.
   */
  function SeedMap(lines: seq<string>): (data: map<string, Entry>)
    decreases |lines|
  {
    if lines == [] then map[]
    else
      var m := SeedMap(lines[..|lines| - 1]);
      match ParseLine(lines[|lines| - 1])
      case None => m
      case Some(e) => m[e.slug := e]
  }

  /** Every seeded entry sits under its own slug, passes every field check and is the row of one of the lines. */
  lemma {:induction false} SeedMapEntries(lines: seq<string>)
    ensures forall k :: k in SeedMap(lines) ==>
      SeedMap(lines)[k].slug == k && IsValidEntry(SeedMap(lines)[k]) && Serialize(SeedMap(lines)[k]) in lines
    decreases |lines|
  {
    if lines != [] {
      var before := lines[..|lines| - 1];
      SeedMapEntries(before);
      assert forall l :: l in before ==> l in lines;
    }
  }

  /** One more line adds its slug when it is accepted, and nothing otherwise. */
  lemma SeedMapStep(lines: seq<string>, slug: string)
    requires lines != []
    ensures slug in SeedMap(lines) <==> slug in SeedMap(lines[..|lines| - 1]) || StoresSlug(lines[|lines| - 1], slug)
  {
  }

  /** Some line of `lines` is accepted and carries `slug`. */
  predicate SomeLineStores(lines: seq<string>, slug: string) {
    exists i :: 0 <= i < |lines| && StoresSlug(lines[i], slug)
  }

  lemma SomeLineStoresStep(lines: seq<string>, slug: string)
    requires lines != []
    ensures SomeLineStores(lines, slug)
      <==> SomeLineStores(lines[..|lines| - 1], slug) || StoresSlug(lines[|lines| - 1], slug)
  {
    var before := lines[..|lines| - 1];
    if SomeLineStores(before, slug) {
      var i :| 0 <= i < |before| && StoresSlug(before[i], slug);
      assert lines[i] == before[i];
    }
    if SomeLineStores(lines, slug) {
      var i :| 0 <= i < |lines| && StoresSlug(lines[i], slug);
      if i < |before| {
        assert before[i] == lines[i];
      }
    }
  }

  /** A slug is seeded exactly when some accepted line carries it. */
  lemma {:induction false} SeedMapKeys(lines: seq<string>, slug: string)
    ensures slug in SeedMap(lines) <==> SomeLineStores(lines, slug)
    decreases |lines|
  {
    if lines != [] {
      SeedMapKeys(lines[..|lines| - 1], slug);
      SeedMapStep(lines, slug);
      SomeLineStoresStep(lines, slug);
    }
  }

  /** The last accepted line for a slug decides its entry, whatever came before. */
  lemma {:induction false} SeedMapLastWins(lines: seq<string>, i: int, slug: string)
    requires 0 <= i < |lines| && StoresSlug(lines[i], slug)
    requires forall j :: i < j < |lines| ==> !StoresSlug(lines[j], slug)
    ensures slug in SeedMap(lines) && SeedMap(lines)[slug] == ParseLine(lines[i]).value
    decreases |lines|
  {
    var before := lines[..|lines| - 1];
    if i < |lines| - 1 {
      assert before[i] == lines[i];
      SeedMapLastWins(before, i, slug);
    }
  }

  /**
   * `seeded()`: the lines of the seed file, or nothing when it cannot be
   * opened, become the initial map.
   */
  method Seeded(seedFile: Option<seq<string>>) returns (data: map<string, Entry>)
    ensures seedFile.None? ==> data == map[]
    ensures seedFile.Some? ==> data == SeedMap(seedFile.value)
  {
    data := map[];
    if seedFile.Some? {
      var lines := seedFile.value;
      for n := 0 to |lines|
        invariant data == SeedMap(lines[..n])
      {
        assert lines[..n + 1][..n] == lines[..n];
        var parsed := ParseLine(lines[n]);
        if parsed.Some? {
          var entry := parsed.value;
          data := data[entry.slug := entry];
        }
      }
      assert lines[..|lines|] == lines;
    }
  }

  /** `setup()`: a store holding the seeded map, with a healthy lock. */
  method Setup(seedFile: Option<seq<string>>) returns (db: Database)
    ensures fresh(db) && !db.poisoned
    ensures db.data == if seedFile.None? then map[] else SeedMap(seedFile.value)
  {
    var data := Seeded(seedFile);
    db := new Database(data);
  }

  // ---- rows from the repository's tests ----

  /** The URL of the backup test after its scheme: host `github`, domain `com`, tail `/litvinav/garmata`. */
  lemma GarmataUrlRest()
    ensures IsUrlRest("github.com/litvinav/garmata")
  {
    var rest := "github.com/litvinav/garmata";
    assert forall i :: 0 <= i < 6 ==> IsHostChar(rest[i]);
    assert forall i :: 6 < i < 10 ==> IsTldChar(rest[i]);
    assert forall i :: 10 <= i < |rest| ==> IsTailChar(rest[i]);
    assert WordBoundary(rest[9], rest[10]);
    assert UrlSplit(rest, 0, 6, 10);
  }

  /** A URL is its scheme followed by the rest the pattern checks. */
  lemma UrlFromParts(scheme: string, rest: string)
    requires scheme == "http://" || scheme == "https://"
    requires IsUrlRest(rest)
    ensures IsUrl(scheme + rest)
  {
    var s := scheme + rest;
    assert s[..|scheme|] == scheme && s[|scheme|..] == rest;
    if scheme == "http://" {
      assert s[..7] == scheme;
    } else {
      assert s[..8] == scheme;
      assert s[4] == 's';
    }
  }

  /**
   * The entry of the backup test passes every field check, so its row is
   * accepted and captures it back (its URL is given as scheme and remainder).
   */
  lemma GarmataRow(e: Entry)
    requires e == Entry("garmata", "https://" + "github.com/litvinav/garmata", "trusted", "0", "253370761200000")
    ensures IsValidEntry(e) && ParseLine(Serialize(e)) == Some(e)
  {
    GarmataUrlRest();
    UrlFromParts("https://", "github.com/litvinav/garmata");
    GarmataFields();
    ParseSerialize(e);
  }

  lemma GarmataFields()
    ensures IsSlug("garmata") && IsStatus("trusted") && IsDigits("0") && IsDigits("253370761200000")
  {
  }

  /** A row with an upper-case slug, or with a timestamp that is not all digits, is dropped. */
  lemma MalformedRowsDropped(url: string)
    requires IsUrl(url)
    ensures ParseLine(Serialize(Entry("GH", url, "trusted", "0", "1"))) == None
    ensures ParseLine(Serialize(Entry("gh", url, "trusted", "soon", "1"))) == None
  {
    UrlHasNoComma(url);
    var upper := Entry("GH", url, "trusted", "0", "1");
    assert !IsSlugChar(upper.slug[0]);
    SerializeInvalidRejected(upper);
    var word := Entry("gh", url, "trusted", "soon", "1");
    assert !IsDigit(word.since[0]);
    SerializeInvalidRejected(word);
  }
}
