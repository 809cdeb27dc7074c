/** Broadcast tags and the public event a broadcast travels in. */
module CommonsWire {
  import opened Wrappers

  // ---- Tags ------------------------------------------------------------------------------

  const MAX_TAG_BYTES: nat := 32
  const COMMONS_MAX_TAGS: nat := 3
  const RESERVED_TAG := "new"

  predicate IsSpace(c: char) {
    c in {'\t', '\n', '\U{0B}', '\U{0C}', '\r', ' ', '\U{85}', '\U{A0}', '\U{1680}', '\U{2028}', '\U{2029}',
      '\U{202F}', '\U{205F}', '\U{3000}'}
    || '\U{2000}' <= c <= '\U{200A}'
  }

  function TrimStart(s: string, drop: char -> bool): string {
    if s == "" || !drop(s[0]) then s else TrimStart(s[1..], drop)
  }

  function TrimEnd(s: string, drop: char -> bool): string {
    if s == "" || !drop(s[|s| - 1]) then s else TrimEnd(s[..|s| - 1], drop)
  }

  function Trim(s: string): string {
    TrimEnd(TrimStart(s, IsSpace), IsSpace)
  }

  /** Lower-casing, as far as it can yield a tag character: ASCII capitals and the Kelvin sign. */
  function Lower(c: char): char {
    if 'A' <= c <= 'Z' then c + 32 as char else if c == '\U{212A}' then 'k' else c
  }

  function LowerAll(s: string): string {
    if s == "" then "" else [Lower(s[0])] + LowerAll(s[1..])
  }

  predicate TagChar(c: char) {
    'a' <= c <= 'z' || '0' <= c <= '9' || c == '_'
  }

  predicate IsTag(t: string) {
    0 < |t| <= MAX_TAG_BYTES && forall i | 0 <= i < |t| :: TagChar(t[i])
  }

  function NormalizeTag(raw: string): Option<string> {
    var t := LowerAll(TrimStart(Trim(raw), c => c == '#'));
    if IsTag(t) then Some(t) else None
  }

  datatype TagError = NoTags | InvalidTag(raw: string) | TooManyTags

  /** How many of some tags count towards the author's allowance. */
  function AuthorTags(tags: seq<string>): nat {
    if tags == [] then 0
    else AuthorTags(tags[..|tags| - 1]) + if tags[|tags| - 1] == RESERVED_TAG then 0 else 1
  }

  function AddTag(out: seq<string>, raw: string): Result<seq<string>, TagError> {
    var t := NormalizeTag(raw);
    if t.None? then Err(InvalidTag(raw))
    else if t.value in out then Ok(out)
    else if t.value != RESERVED_TAG && AuthorTags(out) + 1 > COMMONS_MAX_TAGS then Err(TooManyTags)
    else Ok(out + [t.value])
  }

  function NormalizeFrom(raw: seq<string>): Result<seq<string>, TagError> {
    if raw == [] then Ok([])
    else
      var before := NormalizeFrom(raw[..|raw| - 1]);
      if before.Err? then before else AddTag(before.value, raw[|raw| - 1])
  }

  function NormalizeTags(raw: seq<string>): Result<seq<string>, TagError> {
    if raw == [] then Err(NoTags) else NormalizeFrom(raw)
  }

  lemma NormalizeNothing(raw: seq<string>)
    ensures NormalizeFrom(raw[..0]) == Ok([]) && AuthorTags([]) == 0
  {
  }

  lemma NormalizeStep(raw: seq<string>, i: nat)
    requires i < |raw|
    ensures var before := NormalizeFrom(raw[..i]);
      NormalizeFrom(raw[..i + 1]) == if before.Err? then before else AddTag(before.value, raw[i])
  {
    assert raw[..i + 1][..i] == raw[..i];
  }

  lemma AuthorTagsStep(out: seq<string>, t: string)
    ensures AuthorTags(out + [t]) == AuthorTags(out) + if t == RESERVED_TAG then 0 else 1
  {
    assert (out + [t])[..|out|] == out;
  }

  /** The loop over the raw tags, stopping at the first error. */
  method NormalizeCommonsTags(raw: seq<string>) returns (r: Result<seq<string>, TagError>)
    ensures r == NormalizeTags(raw)
    ensures r.Ok? ==> r.value != []
  {
    if raw == [] {
      return Err(NoTags);
    }
    NormalizeNothing(raw);
    hide NormalizeTag, NormalizeFrom, AuthorTags;
    var out: seq<string> := [];
    var authorTags := 0;
    var i := 0;
    while i < |raw|
      invariant 0 <= i <= |raw| && NormalizeFrom(raw[..i]) == Ok(out) && authorTags == AuthorTags(out)
      invariant i > 0 ==> out != []
    {
      NormalizeStep(raw, i);
      var t := NormalizeTag(raw[i]);
      if t.None? {
        FirstErrorStays(raw, i + 1);
        return Err(InvalidTag(raw[i]));
      }
      if t.value !in out {
        AuthorTagsStep(out, t.value);
        if t.value != RESERVED_TAG {
          authorTags := authorTags + 1;
          if authorTags > COMMONS_MAX_TAGS {
            FirstErrorStays(raw, i + 1);
            return Err(TooManyTags);
          }
        }
        out := out + [t.value];
      }
      i := i + 1;
    }
    assert raw[..|raw|] == raw;
    return Ok(out);
  }

  lemma {:induction false} FirstErrorStays(raw: seq<string>, n: nat)
    requires n <= |raw| && NormalizeFrom(raw[..n]).Err?
    ensures NormalizeFrom(raw) == NormalizeFrom(raw[..n])
  {
    if n < |raw| {
      assert raw[..|raw| - 1][..n] == raw[..n];
      FirstErrorStays(raw[..|raw| - 1], n);
    } else {
      assert raw[..n] == raw;
    }
  }

  predicate NoRepeats(tags: seq<string>) {
    forall i, j | 0 <= i < j < |tags| :: tags[i] != tags[j]
  }

  /** What normalisation yields: proper tags, none twice, at most three besides the reserved one. */
  lemma {:induction false} NormalizedAre(raw: seq<string>)
    requires NormalizeFrom(raw).Ok?
    ensures var out := NormalizeFrom(raw).value;
      && (forall i | 0 <= i < |out| :: IsTag(out[i])) && NoRepeats(out) && AuthorTags(out) <= COMMONS_MAX_TAGS
      && (raw != [] ==> out != [])
  {
    if raw == [] {
    } else {
      var n := |raw| - 1;
      NormalizedAre(raw[..n]);
      var before, out := NormalizeFrom(raw[..n]).value, NormalizeFrom(raw).value;
      if out != before {
        assert out[..|before|] == before;
      }
    }
  }

  lemma {:induction false} TagIsLower(t: string)
    requires forall i | 0 <= i < |t| :: TagChar(t[i])
    ensures LowerAll(t) == t
  {
    if t == "" {
    } else {
      TagIsLower(t[1..]);
    }
  }

  /** A tag normalises to itself. */
  lemma NormalizeTagIdempotent(t: string)
    requires IsTag(t)
    ensures NormalizeTag(t) == Some(t)
  {
    TagIsLower(t);
    assert TagChar(t[0]) && TagChar(t[|t| - 1]);
    assert TrimStart(t, IsSpace) == t;
    assert TrimEnd(t, IsSpace) == t;
    assert TrimStart(t, c => c == '#') == t;
  }

  lemma {:induction false} AuthorTagsGrow(tags: seq<string>, n: nat)
    requires n <= |tags|
    ensures AuthorTags(tags[..n]) <= AuthorTags(tags)
  {
    if n < |tags| {
      assert tags[..|tags| - 1][..n] == tags[..n];
      AuthorTagsGrow(tags[..|tags| - 1], n);
    } else {
      assert tags[..n] == tags;
    }
  }

  lemma AddProperTag(out: seq<string>, t: string)
    requires IsTag(t) && t !in out && AuthorTags(out + [t]) <= COMMONS_MAX_TAGS
    ensures AddTag(out, t) == Ok(out + [t])
  {
    NormalizeTagIdempotent(t);
    assert (out + [t])[..|out|] == out;
    hide NormalizeTag, IsTag;
  }

  lemma {:induction false} NormalizeProperTags(tags: seq<string>)
    requires forall i | 0 <= i < |tags| :: IsTag(tags[i])
    requires NoRepeats(tags) && AuthorTags(tags) <= COMMONS_MAX_TAGS
    ensures NormalizeFrom(tags) == Ok(tags)
  {
    if tags == [] {
    } else {
      var n := |tags| - 1;
      AuthorTagsGrow(tags, n);
      NormalizeProperTags(tags[..n]);
      AddProperTag(tags[..n], tags[n]);
      hide AddTag, AuthorTags, IsTag;
      assert tags == tags[..n] + [tags[n]];
    }
  }

  /** Normalising what normalisation accepted changes nothing. */
  lemma NormalizeTagsIdempotent(raw: seq<string>)
    requires NormalizeTags(raw).Ok?
    ensures NormalizeTags(NormalizeTags(raw).value) == NormalizeTags(raw)
  {
    NormalizedAre(raw);
    NormalizeProperTags(NormalizeFrom(raw).value);
  }

  // ---- What normalising makes of a tag as typed ------------------------------------------

  predicate AllSpace(s: string) {
    forall i | 0 <= i < |s| :: IsSpace(s[i])
  }

  predicate AllHash(s: string) {
    forall i | 0 <= i < |s| :: s[i] == '#'
  }

  /** `u` is tag `t` up to case. */
  predicate SpellsTag(u: string, t: string) {
    |u| == |t| && forall i | 0 <= i < |t| :: t[i] == Lower(u[i])
  }

  lemma {:induction false} LowerAllSpells(u: string)
    ensures SpellsTag(u, LowerAll(u))
  {
    if u == "" {
    } else {
      LowerAllSpells(u[1..]);
    }
  }

  lemma {:induction false} SpelledIsLowered(u: string, t: string)
    requires SpellsTag(u, t)
    ensures LowerAll(u) == t
  {
    if u == "" {
    } else {
      SpelledIsLowered(u[1..], t[1..]);
    }
  }

  lemma {:induction false} TrimStartSplits(s: string, drop: char -> bool) returns (dropped: string)
    ensures s == dropped + TrimStart(s, drop) && forall i | 0 <= i < |dropped| :: drop(dropped[i])
  {
    if s == "" || !drop(s[0]) {
      dropped := "";
    } else {
      var rest := TrimStartSplits(s[1..], drop);
      dropped := [s[0]] + rest;
    }
  }

  lemma {:induction false} TrimEndSplits(s: string, drop: char -> bool) returns (dropped: string)
    ensures s == TrimEnd(s, drop) + dropped && forall i | 0 <= i < |dropped| :: drop(dropped[i])
  {
    if s == "" || !drop(s[|s| - 1]) {
      dropped := "";
    } else {
      var rest := TrimEndSplits(s[..|s| - 1], drop);
      dropped := rest + [s[|s| - 1]];
    }
  }

  lemma {:induction false} TrimStartDrops(dropped: string, s: string, drop: char -> bool)
    requires (forall i | 0 <= i < |dropped| :: drop(dropped[i])) && s != "" && !drop(s[0])
    ensures TrimStart(dropped + s, drop) == s
  {
    if dropped == "" {
      assert dropped + s == s;
    } else {
      TrimStartDrops(dropped[1..], s, drop);
      assert (dropped + s)[1..] == dropped[1..] + s;
    }
  }

  lemma {:induction false} TrimEndDrops(s: string, dropped: string, drop: char -> bool)
    requires (forall i | 0 <= i < |dropped| :: drop(dropped[i])) && s != "" && !drop(s[|s| - 1])
    ensures TrimEnd(s + dropped, drop) == s
  {
    if dropped == "" {
      assert s + dropped == s;
    } else {
      var n := |dropped| - 1;
      TrimEndDrops(s, dropped[..n], drop);
      assert (s + dropped)[..|s + dropped| - 1] == s + dropped[..n];
    }
  }

  lemma TagSpellingIsPlain(u: string, t: string)
    requires IsTag(t) && SpellsTag(u, t)
    ensures u != "" && !IsSpace(u[0]) && !IsSpace(u[|u| - 1]) && u[0] != '#'
  {
    assert TagChar(t[0]) && TagChar(t[|t| - 1]);
  }

  /** However a tag is typed, in any case, behind any hash signs and between any spaces, it is accepted as itself. */
  lemma TypedTagIsAccepted(before: string, hashes: string, u: string, after: string, t: string)
    requires AllSpace(before) && AllHash(hashes) && AllSpace(after) && IsTag(t) && SpellsTag(u, t)
    ensures NormalizeTag(before + hashes + u + after) == Some(t)
  {
    TagSpellingIsPlain(u, t);
    var core := hashes + u;
    assert core[0] == '#' || core[0] == u[0];
    assert core[|core| - 1] == u[|u| - 1];
    assert before + hashes + u + after == before + (core + after);
    TrimStartDrops(before, core + after, IsSpace);
    TrimEndDrops(core, after, IsSpace);
    TrimStartDrops(hashes, u, c => c == '#');
    SpelledIsLowered(u, t);
  }

  /** Nothing else is. */
  lemma AcceptedTagIsTyped(raw: string, t: string) returns (before: string, hashes: string, u: string, after: string)
    requires NormalizeTag(raw) == Some(t)
    ensures raw == before + hashes + u + after && AllSpace(before) && AllHash(hashes) && AllSpace(after) && IsTag(t) && SpellsTag(u, t)
  {
    hide IsSpace, Lower, TagChar, TrimStart, TrimEnd;
    before := TrimStartSplits(raw, IsSpace);
    after := TrimEndSplits(TrimStart(raw, IsSpace), IsSpace);
    hashes := TrimStartSplits(Trim(raw), c => c == '#');
    u := TrimStart(Trim(raw), c => c == '#');
    LowerAllSpells(u);
    assert raw == before + (Trim(raw) + after);
  }

  /** The tags a list comes down to. */
  function TagSet(raw: seq<string>): set<string> {
    set i | 0 <= i < |raw| && NormalizeTag(raw[i]).Some? :: NormalizeTag(raw[i]).value
  }

  lemma TagSetSnoc(raw: seq<string>, last: string)
    ensures TagSet(raw + [last]) == TagSet(raw) + if NormalizeTag(last).Some? then {NormalizeTag(last).value} else {}
  {
    forall t
      ensures t in TagSet(raw + [last]) <==> t in TagSet(raw) || NormalizeTag(last) == Some(t)
    {
      if t in TagSet(raw) {
        var i :| 0 <= i < |raw| && NormalizeTag(raw[i]) == Some(t);
        assert NormalizeTag((raw + [last])[i]) == Some(t);
      }
      if NormalizeTag(last) == Some(t) {
        assert NormalizeTag((raw + [last])[|raw|]) == Some(t);
      }
    }
  }

  predicate AllNormalize(raw: seq<string>) {
    forall i | 0 <= i < |raw| :: NormalizeTag(raw[i]).Some?
  }

  lemma OneMoreTag(tags: set<string>, t: string)
    ensures |tags + {t} - {"new"}| == |tags - {"new"}| + if t in tags || t == "new" then 0 else 1
  {
    if t in tags || t == "new" {
      assert tags + {t} - {"new"} == tags - {"new"};
    } else {
      assert tags + {t} - {"new"} == (tags - {"new"}) + {t};
    }
  }

  lemma {:induction false} NormalizeFromIff(raw: seq<string>)
    ensures NormalizeFrom(raw).Ok? <==> AllNormalize(raw) && |TagSet(raw) - {"new"}| <= 3
    ensures NormalizeFrom(raw).Ok? ==>
      && (forall t :: t in NormalizeFrom(raw).value <==> t in TagSet(raw))
      && AuthorTags(NormalizeFrom(raw).value) == |TagSet(raw) - {"new"}|
  {
    hide NormalizeTag, TagSet;
    if raw == [] {
      assert TagSet(raw) == {} by { NoTagSet(); }
    } else {
      var n := |raw| - 1;
      var front, last := raw[..n], raw[n];
      assert raw == front + [last];
      NormalizeFromIff(front);
      TagSetSnoc(front, last);
      assert AllNormalize(raw) <==> AllNormalize(front) && NormalizeTag(last).Some?;
      if NormalizeTag(last).Some? {
        OneMoreTag(TagSet(front), NormalizeTag(last).value);
        if NormalizeFrom(front).Ok? {
          var out := NormalizeFrom(front).value;
          assert (out + [NormalizeTag(last).value])[..|out|] == out;
        }
      }
    }
  }

  lemma NoTagSet()
    ensures TagSet([]) == {}
  {
  }

  /**
   * A list is accepted exactly when it is not empty, each item is a tag, and there are at most
   * three tags besides "new"; what is kept is each tag.
   */
  lemma TagListIsAcceptedIff(raw: seq<string>)
    ensures NormalizeTags(raw).Ok? <==> raw != [] && AllNormalize(raw) && |TagSet(raw) - {"new"}| <= 3
    ensures NormalizeTags(raw).Ok? ==> forall t :: t in NormalizeTags(raw).value <==> t in TagSet(raw)
  {
    NormalizeFromIff(raw);
  }

  /** Up to 32 lower-case letters, digits and underscores are a tag. */
  lemma TagsAre(t: string)
    ensures IsTag(t) <==>
      1 <= |t| <= 32 && forall i | 0 <= i < |t| :: 'a' <= t[i] <= 'z' || '0' <= t[i] <= '9' || t[i] == '_'
  {
  }

  /** The spaces of Unicode, and the characters that lower-case to one of a tag. */
  lemma SpacesAndLetters(c: char)
    ensures IsSpace(c) <==>
      var n := c as int;
      || 9 <= n <= 13 || n == 32 || n == 0x85 || n == 0xA0 || n == 0x1680 || 0x2000 <= n <= 0x200A
      || n == 0x2028 || n == 0x2029 || n == 0x202F || n == 0x205F || n == 0x3000
    ensures TagChar(Lower(c)) <==> 'a' <= c <= 'z' || 'A' <= c <= 'Z' || '0' <= c <= '9' || c == '_' || c == '\U{212A}'
    ensures 'A' <= c <= 'Z' ==> Lower(c) as int - 'a' as int == c as int - 'A' as int
  {
  }

  /** "#Rust" is taken as "rust". */
  lemma HashAndCapitals()
    ensures NormalizeTag("#Rust") == Some("rust")
  {
    assert "#Rust" == "" + "#" + "Rust" + "";
    TypedTagIsAccepted("", "#", "Rust", "", "rust");
    hide NormalizeTag;
  }

  // ---- Decimal tag values ----------------------------------------------------------------

  const MAX_I64: int := 0x7FFF_FFFF_FFFF_FFFF

  function Digit(d: nat): char
    requires d < 10
  {
    '0' + d as char
  }

  function ToDigits(n: nat): string {
    if n < 10 then [Digit(n)] else ToDigits(n / 10) + [Digit(n % 10)]
  }

  function ToDecimal(n: int): string {
    if n < 0 then "-" + ToDigits(-n) else ToDigits(n)
  }

  function ParseDigits(s: string): Option<nat> {
    if s == "" || !('0' <= s[|s| - 1] <= '9') then None
    else
      var d := (s[|s| - 1] - '0') as nat;
      if |s| == 1 then Some(d)
      else
        var front := ParseDigits(s[..|s| - 1]);
        if front.None? then None else Some(front.value * 10 + d)
  }

  /** An optional sign, then digits, within the 64-bit range. */
  function ParseDecimal(s: string): Option<int> {
    if s == "" then None
    else
      var digits := ParseDigits(if s[0] in {'-', '+'} then s[1..] else s);
      if digits.None? then None
      else
        var n: int := if s[0] == '-' then 0 - digits.value else digits.value;
        if -MAX_I64 - 1 <= n <= MAX_I64 then Some(n) else None
  }

  lemma {:induction false} DigitsRoundTrip(n: nat)
    ensures ParseDigits(ToDigits(n)) == Some(n)
    ensures |ToDigits(n)| > 0 && '0' <= ToDigits(n)[0] <= '9'
  {
    if n < 10 {
    } else {
      DigitsRoundTrip(n / 10);
      var s := ToDigits(n);
      assert s[..|s| - 1] == ToDigits(n / 10);
    }
  }

  lemma DecimalRoundTrip(n: int)
    requires -MAX_I64 - 1 <= n <= MAX_I64
    ensures ParseDecimal(ToDecimal(n)) == Some(n)
  {
    DigitsRoundTrip(if n < 0 then -n else n);
    hide ToDigits, ParseDigits;
    if n < 0 {
      assert ToDecimal(n)[1..] == ToDigits(-n);
    }
  }

  // ---- Wires and events ------------------------------------------------------------------

  const SCHEMA := "pacto.commons.broadcast.v1"
  const D_TAG := "pacto_commons_broadcast"
  const CLIENT := "pacto"
  const KIND: nat := 30078
  const EXPIRY_SKEW_SECS: int := 60

  datatype Squad = Squad(id: string, name: string, kind: string, iconUrl: Option<string>)

  datatype Wire = Wire(
    schema: string, subject: string, message: string, durationHours: nat, expiresAt: int,
    tags: seq<string>, squad: Option<Squad>, audience: Option<string>, cancelled: Option<bool>)

  datatype EventTag = EventTag(name: string, value: string)

  /** A signed event; its content is the wire it carries, if it carries one at all. */
  datatype Event = Event(kind: nat, tags: seq<EventTag>, content: Option<Wire>, createdAt: int, author: string)

  /** The value of the first tag with a name. */
  function FirstTag(tags: seq<EventTag>, name: string): Option<string> {
    if tags == [] then None
    else if tags[0].name == name then Some(tags[0].value)
    else FirstTag(tags[1..], name)
  }

  predicate ValidDuration(h: nat) {
    h in {24, 48, 72, 168, 336, 720}
  }

  predicate ValidAudience(a: string) {
    a == "new_user" || a == "active_user"
  }

  predicate ValidSquad(s: Squad) {
    Trim(s.id) != "" && Trim(s.name) != "" && (s.kind == "squad" || s.kind == "squad-pair")
  }

  function TopicTags(tags: seq<string>): seq<EventTag> {
    if tags == [] then [] else [EventTag("t", tags[0])] + TopicTags(tags[1..])
  }

  /** The tag naming the squad, for a squad's broadcast. */
  function SquadTag(w: Wire): seq<EventTag> {
    if w.squad.Some? then [EventTag("squad", w.squad.value.id)] else []
  }

  /** The tags an event for a wire is built with, for publishing and retracting alike. */
  function BuiltTags(w: Wire): seq<EventTag> {
    [EventTag("d", D_TAG), EventTag("client", CLIENT), EventTag("subject", w.subject), EventTag("exp", ToDecimal(w.expiresAt))]
    + TopicTags(w.tags) + SquadTag(w)
  }

  function BuildEvent(w: Wire, signedAt: int, author: string): Event {
    Event(KIND, BuiltTags(w), Some(w), signedAt, author)
  }

  function TryParse(e: Event, now: int): Option<(Wire, string)> {
    if e.kind != KIND || FirstTag(e.tags, "d") != Some(D_TAG) || FirstTag(e.tags, "client") != Some(CLIENT) then None
    else if e.content.None? then None
    else
      var w := e.content.value;
      if w.schema != SCHEMA || (w.subject != "user" && w.subject != "squad") then None
      else if Trim(w.message) == "" || !ValidDuration(w.durationHours) then None
      else
        var tags := NormalizeTags(w.tags);
        if tags.Err? || w.expiresAt <= now then None
        else
          var skew := w.expiresAt - (e.createdAt + w.durationHours * 3600);
          if skew > EXPIRY_SKEW_SECS || -skew > EXPIRY_SKEW_SECS then None
          else if w.audience.Some? && !ValidAudience(w.audience.value) then None
          else if w.subject == "squad" && (w.squad.None? || !ValidSquad(w.squad.value)) then None
          else if w.subject == "squad" && FirstTag(e.tags, "squad") != Some(w.squad.value.id) then None
          else if w.subject != "squad" && w.squad.Some? then None
          else if FirstTag(e.tags, "subject") != Some(w.subject) then None
          else
            var exp := FirstTag(e.tags, "exp");
            if exp.None? || ParseDecimal(exp.value) != Some(w.expiresAt) then None
            else if exists i :: 0 <= i < |tags.value| && EventTag("t", tags.value[i]) !in e.tags then None
            else Some((w.(tags := tags.value), e.author))
  }

  datatype PublishInput = PublishInput(
    subject: string, message: string, durationHours: nat, tags: seq<string>, audience: Option<string>, squad: Option<Squad>)

  datatype PublishError = BadSubject | NoMessage | BadDuration | BadTags(why: TagError) | BadAudience | NoSquad | BadSquad | StraySquad

  /** The wire publishing makes of an input, or why it refuses. */
  function Publish(input: PublishInput, now: int): Result<Wire, PublishError> {
    var subject, message := Trim(input.subject), Trim(input.message);
    if subject != "user" && subject != "squad" then Err(BadSubject)
    else if message == "" then Err(NoMessage)
    else if !ValidDuration(input.durationHours) then Err(BadDuration)
    else
      var tags := NormalizeTags(input.tags);
      if tags.Err? then Err(BadTags(tags.error))
      else if input.audience.Some? && !ValidAudience(input.audience.value) then Err(BadAudience)
      else if subject == "squad" && input.squad.None? then Err(NoSquad)
      else if subject == "squad" && !ValidSquad(input.squad.value) then Err(BadSquad)
      else if subject == "user" && input.squad.Some? then Err(StraySquad)
      else
        var squad := if subject == "squad" then Some(CleanSquad(input.squad.value)) else None;
        Ok(Wire(SCHEMA, subject, message, input.durationHours, now + input.durationHours * 3600, tags.value, squad, input.audience, None))
  }

  function CleanSquad(s: Squad): Squad {
    Squad(Trim(s.id), Trim(s.name), s.kind, if s.iconUrl.Some? && Trim(s.iconUrl.value) == "" then None else s.iconUrl)
  }

  /** The tombstone a retraction makes of a stored wire. */
  function TombstoneOf(w: Wire, cancelNow: int): Wire {
    w.(expiresAt := cancelNow + w.durationHours * 3600, cancelled := Some(true))
  }

  /** A wire that says something the parser could accept, whenever it is signed and read. */
  predicate Sound(w: Wire) {
    && w.schema == SCHEMA && (w.subject == "user" || w.subject == "squad") && Trim(w.message) != "" && ValidDuration(w.durationHours)
    && w.tags != [] && (forall i | 0 <= i < |w.tags| :: IsTag(w.tags[i])) && NoRepeats(w.tags) && AuthorTags(w.tags) <= COMMONS_MAX_TAGS
    && (w.audience.Some? ==> ValidAudience(w.audience.value))
    && (if w.subject == "squad" then w.squad.Some? && ValidSquad(w.squad.value) else w.squad.None?)
    && -MAX_I64 - 1 <= w.expiresAt <= MAX_I64
  }

  lemma {:induction false} TrimEndIdempotent(s: string)
    ensures TrimEnd(TrimEnd(s, IsSpace), IsSpace) == TrimEnd(s, IsSpace)
    ensures s != "" && !IsSpace(s[0]) ==> TrimEnd(s, IsSpace) != "" && !IsSpace(TrimEnd(s, IsSpace)[0])
  {
    if s == "" || !IsSpace(s[|s| - 1]) {
    } else {
      TrimEndIdempotent(s[..|s| - 1]);
    }
  }

  lemma {:induction false} TrimStartStops(s: string)
    ensures TrimStart(s, IsSpace) == "" || !IsSpace(TrimStart(s, IsSpace)[0])
  {
    if s == "" || !IsSpace(s[0]) {
    } else {
      TrimStartStops(s[1..]);
    }
  }

  lemma TrimIdempotent(s: string)
    ensures Trim(Trim(s)) == Trim(s)
  {
    var t := TrimStart(s, IsSpace);
    TrimStartStops(s);
    TrimEndIdempotent(t);
    assert TrimStart(Trim(s), IsSpace) == Trim(s);
  }

  /** When publishing refuses, and what it publishes otherwise. */
  lemma PublishedSaysWhatWasAsked(input: PublishInput, now: int)
    ensures var squad := Trim(input.subject) == "squad";
      Publish(input, now).Ok? <==>
        && (squad || Trim(input.subject) == "user") && Trim(input.message) != ""
        && input.durationHours in {1 * 24, 2 * 24, 3 * 24, 7 * 24, 14 * 24, 30 * 24}
        && NormalizeTags(input.tags).Ok?
        && (input.audience.Some? ==> input.audience.value in {"new_user", "active_user"})
        && (input.squad.Some? <==> squad)
        && (squad ==> Trim(input.squad.value.id) != "" && Trim(input.squad.value.name) != "" && input.squad.value.kind in {"squad", "squad-pair"})
    ensures Publish(input, now).Ok? ==>
      var w := Publish(input, now).value;
      && w.schema == "pacto.commons.broadcast.v1" && w.subject == Trim(input.subject) && w.message == Trim(input.message)
      && w.durationHours == input.durationHours && w.expiresAt == now + input.durationHours * 60 * 60
      && NormalizeTags(input.tags) == Ok(w.tags) && w.audience == input.audience && w.cancelled == None
      && (w.squad.Some? <==> input.squad.Some?)
      && (w.squad.Some? ==>
            && w.squad.value.id == Trim(input.squad.value.id) && w.squad.value.name == Trim(input.squad.value.name)
            && w.squad.value.kind == input.squad.value.kind
            && (w.squad.value.iconUrl == input.squad.value.iconUrl
                || (w.squad.value.iconUrl == None && Trim(input.squad.value.iconUrl.GetOr("")) == "")))
  {
    hide NormalizeTags, TrimStart, TrimEnd;
  }

  /** Everything publish accepts is sound, and so is every tombstone of a sound wire. */
  lemma PublishedIsSound(input: PublishInput, now: int)
    requires Publish(input, now).Ok? && 0 <= now <= MAX_I64 - 720 * 3600
    ensures Sound(Publish(input, now).value)
  {
    TrimIdempotent(input.message);
    NormalizedAre(input.tags);
    if Trim(input.subject) == "squad" {
      TrimIdempotent(input.squad.value.id);
      TrimIdempotent(input.squad.value.name);
    }
  }

  lemma {:induction false} TopicTagsHave(tags: seq<string>)
    ensures forall i | 0 <= i < |tags| :: EventTag("t", tags[i]) in TopicTags(tags)
    ensures forall t | t in TopicTags(tags) :: t.name == "t"
  {
    if tags == [] {
    } else {
      TopicTagsHave(tags[1..]);
      assert forall i | 1 <= i < |tags| :: tags[i] == tags[1..][i - 1];
    }
  }

  lemma {:induction false} FirstTagSkips(a: seq<EventTag>, b: seq<EventTag>, name: string)
    requires forall t | t in a :: t.name != name
    ensures FirstTag(a + b, name) == FirstTag(b, name)
  {
    if a != [] {
      assert (a + b)[0] == a[0] && a[0] in a && (a + b)[1..] == a[1..] + b;
      FirstTagSkips(a[1..], b, name);
    } else {
      assert a + b == b;
    }
  }

  lemma FirstTagCons(t: EventTag, rest: seq<EventTag>, name: string)
    ensures FirstTag([t] + rest, name) == if t.name == name then Some(t.value) else FirstTag(rest, name)
  {
  }

  lemma BuiltTagsSplit(w: Wire)
    ensures BuiltTags(w) == [EventTag("d", D_TAG)] + ([EventTag("client", CLIENT)] + ([EventTag("subject", w.subject)]
      + ([EventTag("exp", ToDecimal(w.expiresAt))] + (TopicTags(w.tags) + SquadTag(w)))))
  {
    hide ToDecimal, TopicTags;
  }

  lemma BuiltTagsRead(w: Wire)
    ensures FirstTag(BuiltTags(w), "d") == Some(D_TAG) && FirstTag(BuiltTags(w), "client") == Some(CLIENT)
    ensures FirstTag(BuiltTags(w), "subject") == Some(w.subject) && FirstTag(BuiltTags(w), "exp") == Some(ToDecimal(w.expiresAt))
    ensures w.squad.Some? ==> FirstTag(BuiltTags(w), "squad") == Some(w.squad.value.id)
    ensures forall i | 0 <= i < |w.tags| :: EventTag("t", w.tags[i]) in BuiltTags(w)
  {
    BuiltTagsSplit(w);
    TopicTagsHave(w.tags);
    FirstTagSkips(TopicTags(w.tags), SquadTag(w), "squad");
    if w.squad.Some? {
      assert SquadTag(w) == [EventTag("squad", w.squad.value.id)] + [];
      FirstTagCons(EventTag("squad", w.squad.value.id), [], "squad");
    }
    hide BuiltTags, TopicTags, FirstTag, ToDecimal, SquadTag;
    var x := [EventTag("exp", ToDecimal(w.expiresAt))] + (TopicTags(w.tags) + SquadTag(w));
    var s := [EventTag("subject", w.subject)] + x;
    var c := [EventTag("client", CLIENT)] + s;
    forall name
      ensures FirstTag(BuiltTags(w), name) ==
        if name == "d" then Some(D_TAG) else if name == "client" then Some(CLIENT) else if name == "subject" then Some(w.subject)
        else if name == "exp" then Some(ToDecimal(w.expiresAt)) else FirstTag(TopicTags(w.tags) + SquadTag(w), name)
    {
      FirstTagCons(EventTag("d", D_TAG), c, name);
      FirstTagCons(EventTag("client", CLIENT), s, name);
      FirstTagCons(EventTag("subject", w.subject), x, name);
      FirstTagCons(EventTag("exp", ToDecimal(w.expiresAt)), TopicTags(w.tags) + SquadTag(w), name);
    }
  }

  /**
   * Reading back a built event returns the very wire and author it was built from exactly
   * when it has not expired and was signed within a minute of the time its expiry assumes.
   */
  lemma ParseOfBuiltIff(w: Wire, signedAt: int, author: string, now: int)
    requires Sound(w)
    ensures var parsed := TryParse(BuildEvent(w, signedAt, author), now);
      var assumed := w.expiresAt - w.durationHours * 3600;
      && (parsed == Some((w, author)) <==> now < w.expiresAt && -EXPIRY_SKEW_SECS <= signedAt - assumed <= EXPIRY_SKEW_SECS)
      && (parsed != Some((w, author)) ==> parsed.None?)
  {
    BuiltTagsRead(w);
    NormalizeProperTags(w.tags);
    DecimalRoundTrip(w.expiresAt);
    hide BuiltTags, FirstTag, NormalizeFrom, ToDecimal, ParseDecimal, Trim;
    assert NormalizeTags(w.tags) == Ok(w.tags);
    assert w.(tags := w.tags) == w;
  }

  /** The tags of an event say what those built for a wire would. */
  predicate TagsAgree(tags: seq<EventTag>, w: Wire) {
    && FirstTag(tags, "d") == Some("pacto_commons_broadcast") && FirstTag(tags, "client") == Some("pacto")
    && FirstTag(tags, "subject") == Some(w.subject)
    && FirstTag(tags, "exp").Some? && ParseDecimal(FirstTag(tags, "exp").value) == Some(w.expiresAt)
    && (w.subject == "squad" ==> w.squad.Some? && FirstTag(tags, "squad") == Some(w.squad.value.id))
    && forall i | 0 <= i < |w.tags| :: EventTag("t", w.tags[i]) in tags
  }

  lemma BuiltTagsAgree(w: Wire)
    requires Sound(w)
    ensures TagsAgree(BuiltTags(w), w)
  {
    BuiltTagsRead(w);
    DecimalRoundTrip(w.expiresAt);
    hide BuiltTags, FirstTag, ParseDecimal, ToDecimal;
  }

  /**
   * Any signed event, however it was built, is taken exactly when it carries a wire that is sound
   * once its tags are normalised, its tags agree with it, and its expiry is neither past nor more
   * than a minute off; and what is taken is that wire, from the event's signer.
   */
  lemma ParsesIff(e: Event, now: int)
    ensures TryParse(e, now).Some? <==>
      && e.kind == 30078 && e.content.Some? && NormalizeTags(e.content.value.tags).Ok?
      && var w := e.content.value.(tags := NormalizeTags(e.content.value.tags).value);
         Sound(w) && TagsAgree(e.tags, w) && now < w.expiresAt
         && -60 <= w.expiresAt - (e.createdAt + w.durationHours * 3600) <= 60
    ensures TryParse(e, now).Some? ==>
      && e.content.Some? && NormalizeTags(e.content.value.tags).Ok?
      && TryParse(e, now) == Some((e.content.value.(tags := NormalizeTags(e.content.value.tags).value), e.author))
  {
    if e.content.Some? && NormalizeTags(e.content.value.tags).Ok? {
      NormalizedAre(e.content.value.tags);
      hide NormalizeFrom, FirstTag, ParseDigits, Trim, IsTag;
    }
  }

  /** What parsing hands on is sound, so a parsed broadcast can be retracted and the tombstone read back. */
  lemma ParsedIsSound(e: Event, now: int)
    requires TryParse(e, now).Some?
    ensures Sound(TryParse(e, now).value.0)
  {
    NormalizedAre(e.content.value.tags);
  }

  lemma PublishStamps(input: PublishInput, now: int)
    requires Publish(input, now).Ok?
    ensures var w := Publish(input, now).value; w.expiresAt == now + w.durationHours * 3600
  {
  }

  /** A tombstone repeats the broadcast, cancelled, for its duration from now. */
  lemma TombstoneSays(w: Wire, cancelNow: int)
    ensures TombstoneOf(w, cancelNow) == Wire(w.schema, w.subject, w.message, w.durationHours,
      cancelNow + w.durationHours * 60 * 60, w.tags, w.squad, w.audience, Some(true))
  {
  }

  lemma TombstoneIsSound(w: Wire, cancelNow: int)
    requires Sound(w) && 0 <= cancelNow <= MAX_I64 - 720 * 3600
    ensures Sound(TombstoneOf(w, cancelNow))
  {
  }

  /** A published broadcast, and the tombstone that retracts it, both survive the trip to another device. */
  lemma PublishAndRetractRoundTrip(input: PublishInput, now: int, signedAt: int, cancelNow: int, cancelSignedAt: int,
      author: string, later: int)
    requires Publish(input, now).Ok? && 0 <= now && 0 <= cancelNow && now <= MAX_I64 - 720 * 3600 && cancelNow <= MAX_I64 - 720 * 3600
    requires -EXPIRY_SKEW_SECS <= signedAt - now <= EXPIRY_SKEW_SECS && -EXPIRY_SKEW_SECS <= cancelSignedAt - cancelNow <= EXPIRY_SKEW_SECS
    ensures var w := Publish(input, now).value;
      && (later < w.expiresAt ==> TryParse(BuildEvent(w, signedAt, author), later) == Some((w, author)))
      && (later < TombstoneOf(w, cancelNow).expiresAt ==>
            TryParse(BuildEvent(TombstoneOf(w, cancelNow), cancelSignedAt, author), later) == Some((TombstoneOf(w, cancelNow), author)))
  {
    PublishedIsSound(input, now);
    PublishStamps(input, now);
    var w := Publish(input, now).value;
    TombstoneIsSound(w, cancelNow);
    hide Sound, Publish, BuildEvent, TryParse;
    ParseOfBuiltIff(w, signedAt, author, later);
    ParseOfBuiltIff(TombstoneOf(w, cancelNow), cancelSignedAt, author, later);
  }
}
