/**
 * The per-page columns built beside the dropdown loop: the `is_best_flight`
 * flags and the carrier names taken from the page's `bottom` blocks.
 */
module Columns {
  import opened PyStr

  /** `[False for dropdown in dropdowns]` followed by `is_best_flight[0] = True`.
      The page branch runs only when there is at least one dropdown, so index 0
      exists. */
  method BestFlags(n: nat) returns (flags: seq<bool>)
    requires n > 0
    ensures |flags| == n
    ensures forall i :: 0 <= i < n ==> (flags[i] <==> i == 0)
    ensures multiset(flags)[true] == 1
  {
    flags := seq(n, _ => false);
    flags := flags[0 := true];
    assert flags == [true] + flags[1..];
    assert true !in flags[1..];
  }

  /** `[carr.text.strip() for carr in bottoms]` */
  function StripEach(texts: seq<string>): (r: seq<string>)
    ensures |r| == |texts|
  {
    seq(|texts|, i requires 0 <= i < |texts| => StripWs(texts[i]))
  }

  /** The list with every empty string filtered out. */
  function NonEmpty(s: seq<string>): seq<string> {
    if s == [] then []
    else if s[0] == "" then NonEmpty(s[1..])
    else [s[0]] + NonEmpty(s[1..])
  }

  /** The filter holds no empty string and keeps every other string as often as
      it occurred. */
  lemma {:induction false} NonEmptySpec(s: seq<string>)
    ensures "" !in NonEmpty(s)
    ensures forall x :: x != "" ==> multiset(NonEmpty(s))[x] == multiset(s)[x]
    decreases |s|
  {
    if s != [] {
      NonEmptySpec(s[1..]);
      assert s == [s[0]] + s[1..];
    }
  }

  /** The filter distributes over concatenation, so it keeps relative order. */
  lemma {:induction false} NonEmptyConcat(a: seq<string>, b: seq<string>)
    ensures NonEmpty(a + b) == NonEmpty(a) + NonEmpty(b)
    decreases |a|
  {
    if a == [] {
      assert a + b == b;
    } else {
      assert (a + b)[0] == a[0] && (a + b)[1..] == a[1..] + b;
      NonEmptyConcat(a[1..], b);
    }
  }

  /** A list without empty strings passes the filter unchanged. */
  lemma {:induction false} NonEmptyFixed(s: seq<string>)
    requires "" !in s
    ensures NonEmpty(s) == s
    decreases |s|
  {
    if s != [] {
      assert "" !in s[1..];
      NonEmptyFixed(s[1..]);
    }
  }

  /** `s[0::2]`: the entries at indices 0, 2, 4, ... */
  function EveryOther(s: seq<string>): seq<string>
    decreases |s|
  {
    if |s| <= 2 then (if s == [] then [] else [s[0]])
    else [s[0]] + EveryOther(s[2..])
  }

  /** The slice keeps ⌈m/2⌉ entries, the `k`-th being entry `2k`. */
  lemma {:induction false} EveryOtherSpec(s: seq<string>)
    ensures |EveryOther(s)| == (|s| + 1) / 2
    ensures forall k :: 0 <= k < |EveryOther(s)| ==> EveryOther(s)[k] == s[2 * k]
    decreases |s|
  {
    if |s| > 2 {
      EveryOtherSpec(s[2..]);
    }
  }

  /** The index `list.remove(x)` deletes: the first occurrence of `x`. */
  function FirstIndex(s: seq<string>, x: string): (i: nat)
    requires x in s
    ensures i < |s| && s[i] == x && x !in s[..i]
  {
    if s[0] == x then 0
    else
      var j := FirstIndex(s[1..], x);
      assert s[..j + 1] == [s[0]] + s[1..][..j];
      j + 1
  }

  /** The carrier column of a page. */
  function Carriers(bottoms: seq<string>): seq<string> {
    EveryOther(NonEmpty(StripEach(bottoms)))
  }

  /** The carrier column as the scraper builds it: strip every `bottom` text,
      run `while '' in carrier: carrier.remove('')`, then take `carrier[0::2]`. */
  method CleanCarriers(bottoms: seq<string>) returns (carrier: seq<string>)
    ensures carrier == Carriers(bottoms)
  {
    carrier := StripEach(bottoms);
    while "" in carrier
      invariant NonEmpty(carrier) == NonEmpty(StripEach(bottoms))
      decreases |carrier|
    {
      var i := FirstIndex(carrier, "");
      assert carrier == carrier[..i] + [""] + carrier[i + 1..];
      NonEmptyConcat(carrier[..i] + [""], carrier[i + 1..]);
      NonEmptyConcat(carrier[..i], [""]);
      NonEmptyConcat(carrier[..i], carrier[i + 1..]);
      carrier := carrier[..i] + carrier[i + 1..];
    }
    NonEmptyFixed(carrier);
    carrier := EveryOther(carrier);
  }

  /** The carrier column holds no empty name, has ⌈m/2⌉ entries for the `m`
      non-empty stripped names, and its `k`-th entry is the `2k`-th of them. */
  lemma CarriersSpec(bottoms: seq<string>)
    ensures "" !in Carriers(bottoms)
    ensures |Carriers(bottoms)| == (|NonEmpty(StripEach(bottoms))| + 1) / 2
    ensures forall k :: 0 <= k < |Carriers(bottoms)| ==>
      Carriers(bottoms)[k] == NonEmpty(StripEach(bottoms))[2 * k]
  {
    var m := NonEmpty(StripEach(bottoms));
    NonEmptySpec(StripEach(bottoms));
    EveryOtherSpec(m);
  }
}
