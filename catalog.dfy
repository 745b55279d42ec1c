/**
 The catalog: the built-in reading and practice items, the custom reading
 items a user adds, and the pure part of the add-reading form: trimming and
 validation, link normalisation, category formatting, tag derivation and
 the duplicate check.

 `new URL(link).toString()` is a library call that both validates and
 normalises a link; it is the parameter `parseUrl`, `None` where the
 constructor throws.
 */
module Catalog {
  import opened Wrappers
  import opened Storage
  import Text
  import Seqs

  datatype Origin = Default | Custom

  /** A reading item. An empty `link` stands for "no link" (it is falsy in the source). */
  datatype Item = Item(id: string, title: string, description: string, category: string,
                       link: string, itemType: string, tags: seq<string>, origin: Origin)

  datatype PracticeItem = PracticeItem(id: string, title: string, description: string, focus: string)

  function IdOf(item: Item): string
  {
    item.id
  }

  function PracticeIdOf(item: PracticeItem): string
  {
    item.id
  }

  /** The ids of a list of items, in order. */
  function Ids<T>(items: seq<T>, idOf: T -> string): (r: seq<string>)
    ensures |r| == |items| && forall i :: 0 <= i < |items| ==> r[i] == idOf(items[i])
  {
    seq(|items|, i requires 0 <= i < |items| => idOf(items[i]))
  }

  /** `trackerData.readings`. */
  const BuiltinReadings: seq<Item> := [
    Item("mig-basics", "Intro to MIG Welding Parameters",
         "Voltage, wire feed speed, contact tip to work distance", "process",
         "https://weldingtipsandtricks.com/mig-welding-basics.html", "Article",
         ["process", "setup"], Default),
    Item("safety-gear", "Personal Protective Equipment Checklist",
         "Helmet shade charts, gloves, jacket ratings", "safety",
         "https://www.lincolnelectric.com/en-us/support/welding-safety/Pages/welding-safety-gear.aspx", "Guide",
         ["safety"], Default),
    Item("joint-prep", "Preparing Joints for Strong Welds",
         "Cleaning, bevels, root gap, and fit-up for mild steel", "process",
         "https://www.millerwelds.com/resource/articles/welding-joint-preparation", "Article",
         ["process", "fit-up"], Default),
    Item("metallurgy", "Metallurgy Basics for Fabrication",
         "How heat-affected zones behave and why cooling matters", "theory",
         "https://materials.openstax.org/books/introduction-to-materials-science", "Chapter",
         ["theory"], Default),
    Item("symbols", "Reading Welding Symbols",
         "Blueprint interpretation essentials for fabrication drawings", "theory",
         "https://www.thefabricator.com/thefabricator/article/shopmanagement/welding-symbols-demystified", "Article",
         ["theory", "blueprint"], Default),
    Item("safety-ventilation", "Ventilation & Fume Safety",
         "Airflow strategies and respirator selection for indoor bays", "safety",
         "https://www.osha.gov/sites/default/files/publications/welding.pdf", "PDF",
         ["safety", "environment"], Default)
  ]

  /** `trackerData.practice`. */
  const PracticeItems: seq<PracticeItem> := [
    PracticeItem("pads-of-beads", "Pads of Beads",
                 "Run five steady beads focusing on travel speed and gun angle.", "Fundamentals"),
    PracticeItem("lap-joint", "Lap Joint Fillets",
                 "Three 3\" coupons, horizontal position, evaluate for undercut.", "Positioning"),
    PracticeItem("t-joint", "T-Joint Fillets",
                 "Practice pushing vs pulling to compare penetration.", "Technique"),
    PracticeItem("butt-joint", "Butt Joint Root Pass",
                 "1/8\" plate with 1/16\" gap, monitor heat input and tie-in.", "Heat control"),
    PracticeItem("fabrication-mini", "Mini Fabrication Project",
                 "Assemble a small frame or rack; track prep, tack, and final welds.", "Project"),
    PracticeItem("cleanup", "Cleanup & Inspection",
                 "Grind, wire brush, and photograph your best weld for review.", "Quality")
  ]

  /** Progress keys of custom items start with this prefix. */
  const CustomPrefix: string := "custom-"

  predicate IsCustomKey(key: string)
  {
    CustomPrefix <= key
  }

  /** No built-in reading id looks like a custom one, so clearing custom
      progress never touches built-in progress. */
  lemma BuiltinIdsNotCustom()
    ensures forall i :: 0 <= i < |BuiltinReadings| ==> !IsCustomKey(BuiltinReadings[i].id)
  {
    forall i | 0 <= i < |BuiltinReadings| ensures !IsCustomKey(BuiltinReadings[i].id) {
      assert BuiltinReadings[i].id[0] != CustomPrefix[0];
    }
  }

  /** The reading map with every custom-prefixed key deleted. */
  function WithoutCustomKeys(m: map<string, bool>): (r: map<string, bool>)
    ensures forall k :: k in r <==> k in m && !IsCustomKey(k)
    ensures forall k :: k in r ==> r[k] == m[k]
  {
    map k | k in m && !IsCustomKey(k) :: m[k]
  }

  /** `loadCustomReadings`: the stored array as it is, or no items. */
  function LoadCustomReadings(stored: Stored<Item>): seq<Item>
  {
    match stored
    case Array(elems) => elems
    case _ => []
  }

  /** What `saveCustomReadings` leaves under the custom-readings key, as the
      next load parses it: the array of the current custom items. */
  function SavedCustomReadings(items: seq<Item>): Stored<Item>
  {
    Array(items)
  }

  /** Saving the custom items and loading them back gives the same list. */
  lemma CustomReadingsRoundTrip(items: seq<Item>)
    ensures LoadCustomReadings(SavedCustomReadings(items)) == items
  {
  }

  /** A missing key, a value that does not parse, or a value that is not an
      array all load as no custom items. */
  lemma CustomReadingsFallback(stored: Stored<Item>)
    requires !stored.Array?
    ensures LoadCustomReadings(stored) == []
  {
  }

  // ---- link normalisation ----

  predicate IsAsciiLetter(c: char)
  {
    ('a' <= c <= 'z') || ('A' <= c <= 'Z')
  }

  predicate IsSchemeChar(c: char)
  {
    IsAsciiLetter(c) || ('0' <= c <= '9') || c == '+' || c == '.' || c == '-'
  }

  /** Scheme characters up to a colon. */
  function SchemeRest(s: string): (b: bool)
    ensures b <==> exists k :: 0 <= k < |s| && s[k] == ':' && forall i :: 0 <= i < k ==> IsSchemeChar(s[i])
    decreases |s|
  {
    if s == [] then false
    else if s[0] == ':' then true
    else if IsSchemeChar(s[0]) then
      var b := SchemeRest(s[1..]);
      assert b ==> exists k :: 0 <= k < |s| && s[k] == ':' && forall i :: 0 <= i < k ==> IsSchemeChar(s[i]) by {
        if b {
          var k :| 0 <= k < |s[1..]| && s[1..][k] == ':' && forall i :: 0 <= i < k ==> IsSchemeChar(s[1..][i]);
          assert s[k + 1] == ':';
          assert forall i :: 0 <= i < k + 1 ==> IsSchemeChar(s[i]) by {
            forall i | 0 <= i < k + 1 ensures IsSchemeChar(s[i]) {
              if i > 0 { assert s[i] == s[1..][i - 1]; }
            }
          }
        }
      }
      assert (exists k :: 0 <= k < |s| && s[k] == ':' && forall i :: 0 <= i < k ==> IsSchemeChar(s[i])) ==> b by {
        if exists k :: 0 <= k < |s| && s[k] == ':' && forall i :: 0 <= i < k ==> IsSchemeChar(s[i]) {
          var k :| 0 <= k < |s| && s[k] == ':' && forall i :: 0 <= i < k ==> IsSchemeChar(s[i]);
          assert k > 0;
          assert s[1..][k - 1] == ':';
          assert forall i :: 0 <= i < k - 1 ==> IsSchemeChar(s[1..][i]) by {
            forall i | 0 <= i < k - 1 ensures IsSchemeChar(s[1..][i]) {
              assert s[1..][i] == s[i + 1];
            }
          }
        }
      }
      b
    else false
  }

  /** `/^([a-z][a-z0-9+.-]*:)/i.test(s)`: the string starts with a URL scheme. */
  predicate HasScheme(s: string)
  {
    s != [] && IsAsciiLetter(s[0]) && SchemeRest(s[1..])
  }

  /** `s.replace(/^\/+/, "")`. */
  function StripLeadingSlashes(s: string): (r: string)
    ensures |r| <= |s| && r == s[|s| - |r|..]
    ensures forall i :: 0 <= i < |s| - |r| ==> s[i] == '/'
    ensures r == [] || r[0] != '/'
    decreases |s|
  {
    if s != [] && s[0] == '/' then StripLeadingSlashes(s[1..]) else s
  }

  /** A link without a scheme gets `https://` in front of it, after its
      leading slashes are stripped; a link with one is kept. */
  function NormalizeLink(link: string): (r: string)
    ensures HasScheme(r)
    ensures HasScheme(link) ==> r == link
    ensures !HasScheme(link) ==> r == "https://" + StripLeadingSlashes(link)
  {
    if HasScheme(link) then link
    else
      var r := "https://" + StripLeadingSlashes(link);
      HttpsHasScheme(StripLeadingSlashes(link));
      r
  }

  lemma HttpsHasScheme(rest: string)
    ensures HasScheme("https://" + rest)
  {
    var t := ("https://" + rest)[1..];
    assert t[4] == ':';
    assert forall i :: 0 <= i < 4 ==> IsSchemeChar(t[i]);
  }

  /** Normalising twice is normalising once. */
  lemma NormalizeLinkIdempotent(link: string)
    ensures NormalizeLink(NormalizeLink(link)) == NormalizeLink(link)
  {
  }

  // ---- category and tags ----

  /** `formatCategory`: each whitespace-separated word gets an upper-case first letter. */
  function FormatCategory(value: string): (r: string)
    ensures r == [] <==> value == []
  {
    if value == [] then []
    else
      var ws := Text.SplitSpaces(value);
      var cs := seq(|ws|, i requires 0 <= i < |ws| => Text.Capitalize(ws[i]));
      assert |ws| == 1 ==> ws[0] == value;
      Text.JoinSpaces(cs)
  }

  /** For a trimmed category, the formatted category has the same words, each
      capitalised; so formatting it again changes nothing. */
  lemma FormatCategoryWords(value: string)
    requires value != [] && Text.Trimmed(value)
    ensures var ws := Text.SplitSpaces(value);
      var fs := Text.SplitSpaces(FormatCategory(value));
      |fs| == |ws| && forall i :: 0 <= i < |ws| ==> fs[i] == Text.Capitalize(ws[i])
  {
    var ws := Text.SplitSpaces(value);
    Text.SplitTrimmedWordsNonEmpty(value);
    var cs := seq(|ws|, i requires 0 <= i < |ws| => Text.Capitalize(ws[i]));
    forall i | 0 <= i < |cs| ensures cs[i] != [] && Text.NoSpace(cs[i]) {
      assert ws[i] != [] && Text.NoSpace(ws[i]);
      assert cs[i][0] == Text.UpperChar(ws[i][0]);
      forall j | 1 <= j < |cs[i]| ensures !Text.IsSpace(cs[i][j]) {
        assert cs[i][j] == ws[i][j];
      }
    }
    Text.SplitJoin(cs);
  }

  /** Keeps the non-empty strings (`.filter(Boolean)`). */
  function NonEmpty(s: seq<string>): (r: seq<string>)
    ensures forall x :: x in r <==> x in s && x != []
    ensures s != [] && s[0] != [] ==> r != [] && r[0] == s[0]
  {
    if s == [] then []
    else if s[0] == [] then NonEmpty(s[1..])
    else [s[0]] + NonEmpty(s[1..])
  }

  /** The tags of a new item, from the trimmed category input. */
  function CategoryTags(raw: string): (tags: seq<string>)
    ensures raw == [] ==> tags == []
    ensures raw != [] ==> tags != [] && tags[0] == raw
    ensures Seqs.NoDuplicates(tags)
    ensures raw != [] ==> forall t :: t in tags <==> t != [] && (t == raw || t == FormatCategory(raw) || t == Text.Lower(raw))
    ensures raw != [] ==>
      var title := FormatCategory(raw);
      var lower := Text.Lower(raw);
      tags == [raw] + (if title != raw then [title] else [])
                    + (if lower != raw && lower != title then [lower] else [])
  {
    if raw == [] then []
    else
      var title := FormatCategory(raw);
      var lower := Text.Lower(raw);
      var s := [raw, title, lower];
      assert title != [] && lower != [];
      assert NonEmpty(s) == s by {
        var s1 := s[1..];
        var s2 := s1[1..];
        assert s1 == [title, lower] && s2 == [lower] && s2[1..] == [];
        assert NonEmpty(s2) == [lower];
        assert NonEmpty(s1) == [title, lower];
      }
      Seqs.DedupeThree(raw, title, lower);
      Seqs.Dedupe(s)
  }

  // ---- the duplicate check ----

  /** `(item.title || "").trim().toLowerCase() === normalizedTitle`, or the
      item has a link and it equals `link`. */
  predicate Matches(item: Item, normalizedTitle: string, link: string)
  {
    Text.Lower(Text.Trim(item.title)) == normalizedTitle || (item.link != [] && item.link == link)
  }

  /** `getReadingItems().some(...)`. */
  function AnyDuplicate(items: seq<Item>, normalizedTitle: string, link: string): (b: bool)
    ensures b <==> exists i :: 0 <= i < |items| && Matches(items[i], normalizedTitle, link)
    decreases |items|
  {
    if items == [] then false
    else if Matches(items[0], normalizedTitle, link) then true
    else
      var b := AnyDuplicate(items[1..], normalizedTitle, link);
      assert forall i :: 1 <= i < |items| ==> items[i] == items[1..][i - 1];
      b
  }

  // ---- the add-reading submission ----

  datatype FormError = MissingTitle | MissingLink | InvalidLink | Duplicate

  /** The item a submission produces, once validated. */
  function NewItem(now: nat, title: string, link: string, description: string, categoryInput: string): Item
  {
    var category := FormatCategory(categoryInput);
    Item(CustomPrefix + Text.NatToString(now), title, description, category, link,
         if category == [] then "Custom" else category, CategoryTags(categoryInput), Custom)
  }

  /** The decision of the add-reading submit handler against the current
      reading items `existing`, for the form's raw field values. */
  function ValidateReading(existing: seq<Item>, rawTitle: string, rawLink: string,
                           rawDescription: string, rawCategory: string,
                           now: nat, parseUrl: string -> Option<string>): (r: Result<Item, FormError>)
    ensures r.Ok? ==> r.value.origin == Custom && CustomPrefix <= r.value.id && r.value.title != []
  {
    var title := Text.Trim(rawTitle);
    var link := Text.Trim(rawLink);
    if title == [] then Err(MissingTitle)
    else if link == [] then Err(MissingLink)
    else
      match parseUrl(NormalizeLink(link))
      case None => Err(InvalidLink)
      case Some(url) =>
        if AnyDuplicate(existing, Text.Lower(title), url) then Err(Duplicate)
        else Ok(NewItem(now, title, url, Text.Trim(rawDescription), Text.Trim(rawCategory)))
  }

  /** Each rejection happens in exactly its own case, checked in the
      handler's order, and an accepted item is a fresh custom item that
      matches no existing title or link. */
  lemma ValidateReadingOutcomes(existing: seq<Item>, rawTitle: string, rawLink: string,
                                rawDescription: string, rawCategory: string,
                                now: nat, parseUrl: string -> Option<string>)
    ensures var r := ValidateReading(existing, rawTitle, rawLink, rawDescription, rawCategory, now, parseUrl);
      && (r == Err(MissingTitle) <==> Text.Trim(rawTitle) == [])
      && (r == Err(MissingLink) <==> Text.Trim(rawTitle) != [] && Text.Trim(rawLink) == [])
      && (r == Err(InvalidLink) <==>
            Text.Trim(rawTitle) != [] && Text.Trim(rawLink) != [] && parseUrl(NormalizeLink(Text.Trim(rawLink))).None?)
      && (r == Err(Duplicate) <==>
            && Text.Trim(rawTitle) != [] && Text.Trim(rawLink) != []
            && parseUrl(NormalizeLink(Text.Trim(rawLink))).Some?
            && AnyDuplicate(existing, Text.Lower(Text.Trim(rawTitle)), parseUrl(NormalizeLink(Text.Trim(rawLink))).value))
  {
    var r := ValidateReading(existing, rawTitle, rawLink, rawDescription, rawCategory, now, parseUrl);
    var title := Text.Trim(rawTitle);
    var link := Text.Trim(rawLink);
    if title == [] {
      assert r == Err(MissingTitle);
    } else if link == [] {
      assert r == Err(MissingLink);
    } else if parseUrl(NormalizeLink(link)).None? {
      assert r == Err(InvalidLink);
    } else if AnyDuplicate(existing, Text.Lower(title), parseUrl(NormalizeLink(link)).value) {
      assert r == Err(Duplicate);
    } else {
      assert r.Ok?;
    }
  }

  lemma ValidateReadingAccepted(existing: seq<Item>, rawTitle: string, rawLink: string,
                                rawDescription: string, rawCategory: string,
                                now: nat, parseUrl: string -> Option<string>)
    ensures var r := ValidateReading(existing, rawTitle, rawLink, rawDescription, rawCategory, now, parseUrl);
      r.Ok? ==> var item := r.value;
      && CustomPrefix <= item.id
      && item.origin == Custom
      && item.title == Text.Trim(rawTitle) && item.title != []
      && item.link == parseUrl(NormalizeLink(Text.Trim(rawLink))).value
      && item.description == Text.Trim(rawDescription)
      && item.category == FormatCategory(Text.Trim(rawCategory))
      && item.itemType == (if item.category == [] then "Custom" else item.category)
      && item.tags == CategoryTags(Text.Trim(rawCategory))
    ensures var r := ValidateReading(existing, rawTitle, rawLink, rawDescription, rawCategory, now, parseUrl);
      r.Ok? ==> forall i :: 0 <= i < |existing| ==>
        Text.Lower(Text.Trim(existing[i].title)) != Text.Lower(r.value.title)
        && (existing[i].link == [] || existing[i].link != r.value.link)
  {
    if ValidateReading(existing, rawTitle, rawLink, rawDescription, rawCategory, now, parseUrl).Err? {
      return;
    }
    var title := Text.Trim(rawTitle);
    var url := parseUrl(NormalizeLink(Text.Trim(rawLink))).value;
    assert !AnyDuplicate(existing, Text.Lower(title), url);
    var item := NewItem(now, title, url, Text.Trim(rawDescription), Text.Trim(rawCategory));
    assert ValidateReading(existing, rawTitle, rawLink, rawDescription, rawCategory, now, parseUrl) == Ok(item);
    forall i | 0 <= i < |existing|
      ensures Text.Lower(Text.Trim(existing[i].title)) != Text.Lower(item.title)
      ensures existing[i].link == [] || existing[i].link != item.link
    {
      assert !Matches(existing[i], Text.Lower(title), url);
    }
  }

  /** Submitting the same form again, after the first submission's item was
      appended, is rejected as a duplicate. */
  lemma ResubmitIsDuplicate(existing: seq<Item>, rawTitle: string, rawLink: string,
                            rawDescription: string, rawCategory: string,
                            now: nat, later: nat, parseUrl: string -> Option<string>)
    ensures var r := ValidateReading(existing, rawTitle, rawLink, rawDescription, rawCategory, now, parseUrl);
      r.Ok? ==>
        ValidateReading(existing + [r.value], rawTitle, rawLink, rawDescription, rawCategory, later, parseUrl)
          == Err(Duplicate)
  {
    if ValidateReading(existing, rawTitle, rawLink, rawDescription, rawCategory, now, parseUrl).Err? {
      return;
    }
    var title := Text.Trim(rawTitle);
    var url := parseUrl(NormalizeLink(Text.Trim(rawLink))).value;
    var item := NewItem(now, title, url, Text.Trim(rawDescription), Text.Trim(rawCategory));
    assert ValidateReading(existing, rawTitle, rawLink, rawDescription, rawCategory, now, parseUrl) == Ok(item);
    var items := existing + [item];
    Text.TrimIdempotent(rawTitle);
    assert item.title == title;
    assert Matches(items[|existing|], Text.Lower(title), url);
    assert AnyDuplicate(items, Text.Lower(title), url);
  }
}
