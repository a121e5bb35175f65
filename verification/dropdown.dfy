/**
 * One offer dropdown of a results page: its visible text is normalised by a
 * fixed chain of `strip`/`replace` calls and then split into a price and a
 * booking-site label by one of three currency layouts (`$`, `€`, none).
 */
module Dropdown {
  import opened Results
  import opened PyStr

  /** What one dropdown contributes to the `price` and `website` columns. */
  datatype Offer = Offer(price: string, website: string)

  /** The argument of `strip("Vedi offerta")`: a set of characters, not a phrase. */
  const VediOfferta: set<char> := {'V', 'e', 'd', 'i', ' ', 'o', 'f', 'r', 't', 'a'}

  /** One call of the normalisation chain. */
  datatype Step =
    | StripChars(cs: set<char>)  // `strip(chars)`
    | StripSpace                 // `strip()`
    | Remove(pat: string)        // `replace(pat, "")`
  {
    /** The step cannot delete an occurrence of `c`. */
    predicate Keeps(c: char) {
      match this
      case StripChars(cs) => c !in cs
      case StripSpace => !IsSpace(c)
      case Remove(pat) => c !in pat
    }
  }

  function Do(step: Step, s: string): string {
    match step
    case StripChars(cs) => Strip(s, Chars(cs))
    case StripSpace => StripWs(s)
    case Remove(pat) => if pat == [] then s else RemoveAll(s, pat)
  }

  /** The steps applied left to right, as a chain of method calls. */
  function Apply(steps: seq<Step>, s: string): string
    decreases |steps|
  {
    if steps == [] then s else Apply(steps[1..], Do(steps[0], s))
  }

  /** `strip("\n").replace(" Economy", "").strip("Vedi offerta")` */
  const StripEconomyVedi: seq<Step> := [StripChars({'\n'}), Remove(" Economy"), StripChars(VediOfferta)]
  /** `.replace("View Deal", "").replace("Basic", "")` */
  const RemoveBoilerplate: seq<Step> := [Remove("View Deal"), Remove("Basic")]
  /** `.replace("Cabina principale", "").replace("Main Cabin", "").strip().replace("\n", "")` */
  const RemoveCabinTrim: seq<Step> := [Remove("Cabina principale"), Remove("Main Cabin"), StripSpace, Remove("\n")]

  /** The chain that turns a dropdown's text into `pretty`, one entry per call. */
  const Chain: seq<Step> := StripEconomyVedi + RemoveBoilerplate + RemoveCabinTrim

  /** The `pretty` text of a dropdown. */
  function Normalize(text: string): string {
    Apply(Chain, text)
  }

  /** The last step of a chain is applied to what the others leave. */
  lemma {:induction false} ApplySnoc(steps: seq<Step>, last: Step, s: string)
    ensures Apply(steps + [last], s) == Do(last, Apply(steps, s))
    decreases |steps|
  {
    if steps == [] {
      assert [last][1..] == [];
    } else {
      assert (steps + [last])[1..] == steps[1..] + [last];
      ApplySnoc(steps[1..], last, Do(steps[0], s));
    }
  }

  /** A step that keeps `c` keeps every occurrence of it. */
  lemma DoKeeps(step: Step, s: string, c: char)
    requires step.Keeps(c)
    ensures multiset(Do(step, s))[c] == multiset(s)[c]
  {
    match step
    case StripChars(cs) => StripKeeps(s, Chars(cs), c);
    case StripSpace => StripKeeps(s, Whitespace, c);
    case Remove(pat) =>
      if pat != [] {
        RemoveAllKeeps(s, pat, c);
      }
  }

  /** A chain whose every step keeps `c` keeps every occurrence of it. */
  lemma {:induction false} ApplyKeeps(steps: seq<Step>, s: string, c: char)
    requires forall st :: st in steps ==> st.Keeps(c)
    ensures multiset(Apply(steps, s))[c] == multiset(s)[c]
    decreases |steps|
  {
    if steps != [] {
      DoKeeps(steps[0], s, c);
      ApplyKeeps(steps[1..], Do(steps[0], s), c);
    }
  }

  /** The normalised text holds no newline at all, not only none at its ends. */
  lemma NormalizeNoNewline(text: string)
    ensures '\n' !in Normalize(text)
  {
    var init := Chain[..|Chain| - 1];
    assert Chain == init + [Remove("\n")];
    ApplySnoc(init, Remove("\n"), text);
    RemoveAllChar(Apply(init, text), '\n');
  }

  /** No step of the normalisation removes a currency glyph: every `€` and every
      `$` of the raw text survives into `pretty`. */
  lemma NormalizeKeepsGlyphs(text: string, c: char)
    requires c == '€' || c == '$'
    ensures multiset(Normalize(text))[c] == multiset(text)[c]
  {
    GlyphsOutsideChain(c);
    ChainKeeps(c);
    ApplyKeeps(Chain, text, c);
  }

  /** The currency glyphs are neither whitespace nor in any stripped set or
      removed pattern. */
  lemma GlyphsOutsideChain(c: char)
    requires c == '€' || c == '$'
    ensures OutsideChain(c)
  {
  }

  /** `c` is outside every set, pattern and class of characters the chain deletes. */
  predicate OutsideChain(c: char) {
    c != '\n' && c !in VediOfferta && !IsSpace(c) &&
    c !in " Economy" && c !in "View Deal" && c !in "Basic" &&
    c !in "Cabina principale" && c !in "Main Cabin"
  }

  lemma ChainKeeps(c: char)
    requires OutsideChain(c)
    ensures forall st :: st in Chain ==> st.Keeps(c)
  {
  }

  /** A raw text with a `€` normalises to a text that `split("€")` cuts into at
      least two parts, so the `€` branch's `[1]` access cannot fail. */
  lemma NormalizeEuroSplits(text: string)
    requires '€' in text
    ensures |Split(Normalize(text), "€")| >= 2
  {
    NormalizeKeepsGlyphs(text, '€');
    assert '€' in multiset(text);
    ContainsChar(Normalize(text), '€');
    SplitCount(Normalize(text), "€");
  }

  /** The `$` branch: the first letter-like character starts the label, and what
      lies between the leading glyph and it is the price (`pretty[1:k]`). */
  function DollarSplit(pretty: string): Result<Offer, Crash> {
    SearchLetterFromSpec(pretty, 0);
    match SearchLetter(pretty)
    case None => Err(NoLetterAfterPrice)
    case Some(k) => Ok(Offer(if k == 0 then [] else pretty[1..k], pretty[k..]))
  }

  /** The `$` layout: `website` is the suffix of `pretty` that starts at its first
      `[^\W\d]` character, and `price` is the text between the leading glyph and
      that character (Python's `pretty[1:k]`, empty when `k` is 0). */
  predicate DollarFields(pretty: string, o: Offer) {
    var k := |pretty| - |o.website|;
    0 <= k < |pretty| && pretty[k..] == o.website && IsLetterLike(pretty[k]) &&
    (forall j :: 0 <= j < k ==> !IsLetterLike(pretty[j])) &&
    o.price == (if k == 0 then [] else pretty[1..k])
  }

  /** The `$` branch fails exactly when `pretty` has no letter-like character;
      otherwise the price holds none, and price and label together are
      `pretty` without its glyph whenever the glyph is not itself a letter. */
  lemma DollarSplitSpec(pretty: string)
    ensures DollarSplit(pretty).Err? <==> forall j :: 0 <= j < |pretty| ==> !IsLetterLike(pretty[j])
    ensures DollarSplit(pretty).Ok? ==> DollarFields(pretty, DollarSplit(pretty).value)
    ensures DollarSplit(pretty).Ok? ==> forall c :: c in DollarSplit(pretty).value.price ==> !IsLetterLike(c)
    ensures DollarSplit(pretty).Ok? && !IsLetterLike(pretty[0]) ==>
      DollarSplit(pretty).value.price + DollarSplit(pretty).value.website == pretty[1..]
  {
    SearchLetterFromSpec(pretty, 0);
    match SearchLetter(pretty)
    case None =>
    case Some(k) =>
      assert k < |pretty|;
      if k > 0 {
        assert pretty[1..] == pretty[1..k] + pretty[k..];
      }
  }

  /** The `€` branch. `pretty.split("€")` has at least two parts when `pretty`
      holds a `€`, so the `[1]` access cannot fail. */
  function EuroSplit(pretty: string): Offer
    requires '€' in pretty
  {
    ContainsChar(pretty, '€');
    SplitCount(pretty, "€");
    var parts := Split(pretty, "€");
    Offer(StripWs(parts[0]), parts[1])
  }

  /** The `€` layout, with `i` the first `€` of `pretty`: `price` is the trimmed text
      before it, and `website` is exactly the text after it up to the next `€`
      (or the end). */
  predicate EuroFields(pretty: string, i: nat, o: Offer) {
    i < |pretty| && pretty[i] == '€' && '€' !in pretty[..i] &&
    o.price == StripWs(pretty[..i]) &&
    var rest := pretty[i + 1..];
    |o.website| <= |rest| && rest[..|o.website|] == o.website && '€' !in o.website &&
    (|o.website| == |rest| || rest[|o.website|] == '€')
  }

  /** The `€` branch yields the fields of the `€` layout. */
  lemma EuroSplitSpec(pretty: string)
    requires '€' in pretty
    ensures exists i: nat :: EuroFields(pretty, i, EuroSplit(pretty))
  {
    ContainsChar(pretty, '€');
    FindSpec(pretty, "€");
    SplitCount(pretty, "€");
    var i := Find(pretty, "€").value;
    var rest := pretty[i + 1..];
    var parts := Split(pretty, "€");
    assert parts == [pretty[..i]] + Split(rest, "€") by {
      SplitAt(pretty, "€", i);
    }
    var web := parts[1];
    assert pretty[i] == '€' && '€' !in pretty[..i] by {
      assert pretty[i..i + 1] == "€";
      SplitHead(pretty, "€");
      ContainsChar(parts[0], '€');
    }
    assert |web| <= |rest| && rest[..|web|] == web && '€' !in web by {
      SplitHead(rest, "€");
      ContainsChar(web, '€');
    }
    if |web| < |rest| {
      SplitHead(rest, "€");
      assert rest[|web|..|web| + 1] == "€";
    }
    assert EuroFields(pretty, i, EuroSplit(pretty));
  }

  /** The branch with no currency glyph: no price, and every "Info" removed from the label. */
  function PlainSplit(pretty: string): Offer {
    Offer("No price", RemoveAll(pretty, "Info"))
  }

  /** The label of the plain branch is `pretty` cut at every "Info" and glued back. */
  lemma PlainSplitSpec(pretty: string)
    ensures PlainSplit(pretty).price == "No price"
    ensures PlainSplit(pretty).website == Join(Split(pretty, "Info"), "")
  {
    RemoveAllIsJoinOfSplit(pretty, "Info");
  }

  /** `web.split("View Deal")[0]`: the label up to its first "View Deal". */
  function CutViewDeal(web: string): string {
    Split(web, "View Deal")[0]
  }

  /** The cut label is a prefix of the label, ends where the first "View Deal"
      begins (or at the end), and holds no "View Deal". */
  lemma CutViewDealSpec(web: string)
    ensures var r := CutViewDeal(web);
      |r| <= |web| && web[..|r|] == r &&
      (|r| < |web| ==> OccursAt(web, "View Deal", |r|)) &&
      !Contains(r, "View Deal")
  {
    SplitHead(web, "View Deal");
  }

  /** One iteration of the dropdown loop. The currency tests look at the raw
      text; the splitting works on the normalised text. */
  function SplitDropdown(text: string): Result<Offer, Crash> {
    var pretty := Normalize(text);
    var split :=
      if '$' in text then DollarSplit(pretty)
      else if '€' in text then
        NormalizeKeepsGlyphs(text, '€');
        assert '€' in multiset(text);
        Ok(EuroSplit(pretty))
      else Ok(PlainSplit(pretty));
    match split
    case Err(e) => Err(e)
    case Ok(o) => Ok(Offer(o.price, CutViewDeal(o.website)))
  }

  /** A dropdown fails only in the `$` layout, when its normalised text has no
      letter-like character; a `€` dropdown never fails; the label never holds
      "View Deal"; a `$` price holds no letter-like character; a dropdown with
      neither glyph is priced "No price". */
  lemma SplitDropdownSpec(text: string)
    ensures SplitDropdown(text).Err? <==>
      '$' in text && forall j :: 0 <= j < |Normalize(text)| ==> !IsLetterLike(Normalize(text)[j])
    ensures SplitDropdown(text).Err? ==> SplitDropdown(text).error == NoLetterAfterPrice
    ensures '$' !in text && '€' in text ==> SplitDropdown(text).Ok?
    ensures SplitDropdown(text).Ok? ==> !Contains(SplitDropdown(text).value.website, "View Deal")
    ensures '$' in text && SplitDropdown(text).Ok? ==>
      forall c :: c in SplitDropdown(text).value.price ==> !IsLetterLike(c)
    ensures '$' !in text && '€' !in text ==>
      SplitDropdown(text).Ok? && SplitDropdown(text).value.price == "No price"
  {
    var pretty := Normalize(text);
    if '$' in text {
      DollarSplitSpec(pretty);
      if DollarSplit(pretty).Ok? {
        CutViewDealSpec(DollarSplit(pretty).value.website);
      }
    } else if '€' in text {
      NormalizeKeepsGlyphs(text, '€');
      assert '€' in multiset(text);
      CutViewDealSpec(EuroSplit(pretty).website);
    } else {
      CutViewDealSpec(PlainSplit(pretty).website);
    }
  }

  /** The dropdown loop: one `price` and one `website` entry per dropdown, in
      dropdown order; the first dropdown that fails ends the page with its error. */
  method SplitAll(dropdowns: seq<string>) returns (r: Result<(seq<string>, seq<string>), Crash>)
    ensures r.Ok? <==> forall i :: 0 <= i < |dropdowns| ==> SplitDropdown(dropdowns[i]).Ok?
    ensures r.Err? ==>
      exists i :: 0 <= i < |dropdowns| && SplitDropdown(dropdowns[i]) == Err(r.error) &&
        forall j :: 0 <= j < i ==> SplitDropdown(dropdowns[j]).Ok?
    ensures r.Ok? ==> |r.value.0| == |dropdowns| && |r.value.1| == |dropdowns|
    ensures r.Ok? ==> forall i :: 0 <= i < |dropdowns| ==>
      r.value.0[i] == SplitDropdown(dropdowns[i]).value.price &&
      r.value.1[i] == SplitDropdown(dropdowns[i]).value.website
    ensures r.Ok? ==> forall i :: 0 <= i < |dropdowns| ==> !Contains(r.value.1[i], "View Deal")
  {
    var price: seq<string> := [];
    var website: seq<string> := [];
    for n := 0 to |dropdowns|
      invariant |price| == n && |website| == n
      invariant forall i :: 0 <= i < n ==> SplitDropdown(dropdowns[i]).Ok?
      invariant forall i :: 0 <= i < n ==>
        price[i] == SplitDropdown(dropdowns[i]).value.price &&
        website[i] == SplitDropdown(dropdowns[i]).value.website
    {
      var offer := SplitDropdown(dropdowns[n]);
      if offer.Err? {
        return Err(offer.error);
      }
      price := price + [offer.value.price];
      website := website + [offer.value.website];
    }
    forall i | 0 <= i < |dropdowns| ensures !Contains(website[i], "View Deal") {
      SplitDropdownSpec(dropdowns[i]);
    }
    return Ok((price, website));
  }
}
