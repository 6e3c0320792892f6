/** Chain validation (`ai-executor/src/chain.ts`): order kept, two vendors at least. */
module Chain {
  import opened Results
  import opened Text
  import opened Billing

  const MIN_PROVIDER_VENDORS := 2

  datatype Provider = Provider(vendor: string, model: string, pricing: Option<ModelPricing>)

  datatype ChainError =
    | NoProviders
    | BlankVendor(position: nat)
    | BlankModel(position: nat)
    | Repeated(key: string, vendors: nat)
    | TooFewVendors(vendors: nat)

  /** Stands for `toLowerCase`. */
  type Lower = string -> string

  function VendorKey(p: Provider, lower: Lower): string { lower(Trim(p.vendor)) }

  function ModelKey(p: Provider, lower: Lower): string { lower(Trim(p.model)) }

  function ChainKey(p: Provider, lower: Lower): string { VendorKey(p, lower) + "/" + ModelKey(p, lower) }

  function VendorsOf(providers: seq<Provider>, lower: Lower): set<string> {
    set p | p in providers :: VendorKey(p, lower)
  }

  predicate Named(p: Provider) { Trim(p.vendor) != "" && Trim(p.model) != "" }

  /** What the check demands of a chain. */
  ghost predicate IsChain(providers: seq<Provider>, lower: Lower) {
    && (forall i | 0 <= i < |providers| :: Named(providers[i]))
    && (forall i, j | 0 <= i < j < |providers| :: ChainKey(providers[i], lower) != ChainKey(providers[j], lower))
    && |VendorsOf(providers, lower)| >= MIN_PROVIDER_VENDORS
  }

  /** What each refusal means. */
  ghost predicate RefusedAs(providers: seq<Provider>, lower: Lower, e: ChainError) {
    match e
    case NoProviders => providers == []
    case BlankVendor(i) =>
      i < |providers| && Trim(providers[i].vendor) == "" && forall j | 0 <= j < i :: Named(providers[j])
    case BlankModel(i) =>
      && i < |providers| && Trim(providers[i].vendor) != "" && Trim(providers[i].model) == ""
      && forall j | 0 <= j < i :: Named(providers[j])
    case Repeated(key, vendors) =>
      && (forall j | 0 <= j < |providers| :: Named(providers[j]))
      && vendors == |VendorsOf(providers, lower)|
      && exists i, j :: 0 <= i < j < |providers|
                        && ChainKey(providers[i], lower) == key == ChainKey(providers[j], lower)
    case TooFewVendors(vendors) =>
      && providers != [] && (forall j | 0 <= j < |providers| :: Named(providers[j]))
      && (forall i, j | 0 <= i < j < |providers| :: ChainKey(providers[i], lower) != ChainKey(providers[j], lower))
      && vendors == |VendorsOf(providers, lower)| < MIN_PROVIDER_VENDORS
  }

  /** The chain comes back unchanged exactly when it is one. */
  method BuildChain(providers: seq<Provider>, lower: Lower) returns (r: Result<seq<Provider>, ChainError>)
    ensures r.Ok? <==> IsChain(providers, lower)
    ensures r.Ok? ==> r.value == providers
    ensures r.Err? ==> RefusedAs(providers, lower, r.error)
  {
    hide ChainKey, Trim;
    if |providers| == 0 {
      return Err(NoProviders);
    }
    for i := 0 to |providers|
      invariant forall j | 0 <= j < i :: Named(providers[j])
    {
      if Trim(providers[i].vendor) == "" {
        assert !Named(providers[i]);
        return Err(BlankVendor(i));
      }
      if Trim(providers[i].model) == "" {
        assert !Named(providers[i]);
        return Err(BlankModel(i));
      }
    }
    var seen: set<string> := {};
    for i := 0 to |providers|
      invariant forall key :: key in seen <==> exists j :: 0 <= j < i && ChainKey(providers[j], lower) == key
      invariant forall j, k | 0 <= j < k < i :: ChainKey(providers[j], lower) != ChainKey(providers[k], lower)
    {
      var key := ChainKey(providers[i], lower);
      if key in seen {
        var j :| 0 <= j < i && ChainKey(providers[j], lower) == key;
        return Err(Repeated(key, |VendorsOf(providers, lower)|));
      }
      seen := seen + {key};
    }
    var vendors := VendorsOf(providers, lower);
    if |vendors| < MIN_PROVIDER_VENDORS {
      return Err(TooFewVendors(|vendors|));
    }
    return Ok(providers);
  }

  /** A chain asks two vendors that trimming and folding tell apart, and one of a single vendor is refused. */
  lemma ChainSpansTwoVendors(providers: seq<Provider>, lower: Lower)
    requires IsChain(providers, lower)
    ensures exists p, q :: p in providers && q in providers && lower(Trim(p.vendor)) != lower(Trim(q.vendor))
  {
    hide Trim;
    var vendors := VendorsOf(providers, lower);
    var v :| v in vendors;
    assert |{v}| == 1;
    assert vendors != {v};
    var w :| w in vendors && w != v;
  }

  /** Two vendors, good names and no repeated key are enough. */
  lemma TwoVendorsSuffice(providers: seq<Provider>, lower: Lower, p: Provider, q: Provider)
    requires p in providers && q in providers && lower(Trim(p.vendor)) != lower(Trim(q.vendor))
    requires forall i | 0 <= i < |providers| :: Trim(providers[i].vendor) != "" && Trim(providers[i].model) != ""
    requires forall i, j | 0 <= i < j < |providers| :: ChainKey(providers[i], lower) != ChainKey(providers[j], lower)
    ensures IsChain(providers, lower)
  {
    hide Trim, ChainKey;
    var vendors, two := VendorsOf(providers, lower), {VendorKey(p, lower), VendorKey(q, lower)};
    assert two <= vendors && vendors == two + (vendors - two);
  }

  // ---- When two keys are one -----------------------------------------------------------------

  /** What trimming leaves of a name that is not blank. */
  predicate Solid(s: string) { s != "" && !IsSpace(s[0]) && !IsSpace(s[|s| - 1]) }

  lemma {:induction false} TrimStartIsSuffix(s: string)
    ensures var t := TrimStart(s);
            t != "" ==> !IsSpace(t[0]) && s != "" && t[|t| - 1] == s[|s| - 1]
  {
    hide IsSpace;
    if s != "" && IsSpace(s[0]) {
      TrimStartIsSuffix(s[1..]);
    }
  }

  lemma {:induction false} TrimEndIsPrefix(s: string)
    ensures var t := TrimEnd(s);
            t != "" ==> !IsSpace(t[|t| - 1]) && s != "" && t[0] == s[0]
  {
    hide IsSpace;
    if s != "" && IsSpace(s[|s| - 1]) {
      TrimEndIsPrefix(s[..|s| - 1]);
    }
  }

  /** Trimming gives nothing or something solid, and leaves what is solid alone. */
  lemma TrimIsSolid(s: string)
    ensures Trim(s) != "" ==> Solid(Trim(s))
    ensures Solid(s) ==> Trim(s) == s
  {
    hide IsSpace;
    TrimStartIsSuffix(s);
    TrimEndIsPrefix(TrimStart(s));
  }

  /** White space around something solid goes, and only that. */
  lemma {:induction false} TrimRemoves(before: string, s: string, after: string)
    requires Solid(s) && (forall c | c in before :: IsSpace(c)) && (forall c | c in after :: IsSpace(c))
    ensures Trim(before + s + after) == s
    decreases |before|
  {
    hide IsSpace;
    if before == "" {
      assert before + s + after == s + after;
      TrimEndRemoves(s, after);
    } else {
      assert before[0] in before && (before + s + after)[1..] == before[1..] + s + after;
      TrimRemoves(before[1..], s, after);
    }
  }

  lemma {:induction false} TrimEndRemoves(s: string, after: string)
    requires Solid(s) && forall c | c in after :: IsSpace(c)
    ensures TrimStart(s + after) == s + after && TrimEnd(s + after) == s
    decreases |after|
  {
    hide IsSpace;
    if after == "" {
      assert s + after == s;
    } else {
      var shorter := after[..|after| - 1];
      assert after[|after| - 1] in after && (s + after)[..|s + after| - 1] == s + shorter;
      TrimEndRemoves(s, shorter);
    }
  }

  lemma TrimWord(s: string)
    requires s != "" && 'A' <= s[0] <= 'z' && 'A' <= s[|s| - 1] <= 'z'
    ensures Trim(s) == s
  {
    hide Trim;
    TrimIsSolid(s);
  }

  /** `w` is `v`, a slash, and nothing more or something that does not begin with a space. */
  predicate Continues(v: string, w: string) {
    v + "/" <= w && (|w| == |v| + 1 || !IsSpace(w[|v| + 1]))
  }

  /**
   * A repeated key is a repeated vendor and model unless one vendor name continues another after a
   * slash: `a` with model `b/c` and `a/b` with model `c` share the key `a/b/c`. A model key is solid,
   * so `a` and `a/ b` never share a key. Two vendor keys never cause a false repetition, whatever
   * model keys follow, exactly when neither continues the other.
   */
  lemma KeysSeparateVendors(v: string, w: string)
    requires v != w
    ensures (forall m: string, n: string | Solid(m) && Solid(n) :: v + "/" + m != w + "/" + n)
       <==> !Continues(v, w) && !Continues(w, v)
  {
    if Continues(v, w) {
      SharedKey(v, w, "m");
    } else if Continues(w, v) {
      SharedKey(w, v, "m");
    } else {
      forall m: string, n: string | Solid(m) && Solid(n)
        ensures v + "/" + m != w + "/" + n
      {
        if v + "/" + m == w + "/" + n {
          KeyContinues(v, w, m, n);
          assert false;
        }
      }
    }
  }

  /** The model keys that give `v` and its continuation `w` one key, `n` being any. */
  lemma SharedKey(v: string, w: string, n: string)
    requires Continues(v, w) && Solid(n)
    ensures var m := w[|v| + 1..] + "/" + n;
            Solid(m) && v + "/" + m == w + "/" + n
  {
    assert w == v + "/" + w[|v| + 1..];
  }

  lemma KeyContinues(v: string, w: string, m: string, n: string)
    requires v != w && Solid(m) && Solid(n) && v + "/" + m == w + "/" + n
    ensures Continues(v, w) || Continues(w, v)
  {
    hide IsSpace;
    KeyPrefix(v, w, m, n);
    var key := v + "/" + m;
    if v + "/" <= w {
      assert |w| > |v| + 1 ==> w[|v| + 1] == key[|v| + 1] == m[0];
    } else {
      assert key == w + "/" + n;
      assert |v| > |w| + 1 ==> v[|w| + 1] == key[|w| + 1] == n[0];
    }
  }

  /** What `toLowerCase` does: white space neither comes nor goes, and a string is fixed if its characters are. */
  ghost predicate IsFolding(lower: Lower) {
    && (forall s | Solid(s) :: Solid(lower(s)))
    && (forall s | (forall c | c in s :: lower([c]) == [c]) :: lower(s) == s)
  }

  /** A string whose characters fold to themselves. */
  ghost predicate IsFolded(s: string, lower: Lower) { Solid(s) && forall c | c in s :: lower([c]) == [c] }

  /**
   * The same for the providers of a chain: two vendor keys are never refused as one, whatever models
   * are configured, exactly when neither continues the other.
   */
  lemma VendorsSeparate(v: string, w: string, lower: Lower)
    requires v != w && IsFolding(lower) && IsFolded(v, lower) && IsFolded(w, lower)
    ensures (forall p, q | Named(p) && Named(q) && VendorKey(p, lower) == v && VendorKey(q, lower) == w ::
               ChainKey(p, lower) != ChainKey(q, lower))
       <==> !Continues(v, w) && !Continues(w, v)
  {
    hide Solid, Continues, Named, VendorKey, ChainKey;
    if Continues(v, w) {
      var p, q := CollidingProviders(v, w, lower);
    } else if Continues(w, v) {
      var q, p := CollidingProviders(w, v, lower);
      assert ChainKey(p, lower) == ChainKey(q, lower);
    } else {
      forall p, q | Named(p) && Named(q) && VendorKey(p, lower) == v && VendorKey(q, lower) == w
        ensures ChainKey(p, lower) != ChainKey(q, lower)
      {
        KeyParts(p, lower);
        KeyParts(q, lower);
        KeysSeparateVendors(v, w);
      }
    }
  }

  lemma KeyParts(p: Provider, lower: Lower)
    requires Named(p) && IsFolding(lower)
    ensures Solid(ModelKey(p, lower)) && ChainKey(p, lower) == VendorKey(p, lower) + "/" + ModelKey(p, lower)
  {
    hide Trim, Solid;
    TrimIsSolid(p.model);
  }

  lemma CollidingProviders(v: string, w: string, lower: Lower) returns (p: Provider, q: Provider)
    requires IsFolding(lower) && IsFolded(v, lower) && IsFolded(w, lower) && Continues(v, w)
    ensures Named(p) && Named(q) && VendorKey(p, lower) == v && VendorKey(q, lower) == w
    ensures ChainKey(p, lower) == ChainKey(q, lower)
  {
    var model := w[|v| + 1..] + "/" + v;
    SharedKey(v, w, v);
    hide Trim, IsSpace;
    assert w[|v|] == '/' && lower(['/']) == ['/'];
    assert lower(v) == v && lower(w) == w;
    assert forall c | c in model :: c in w || c in v;
    assert lower(model) == model;
    TrimIsSolid(v);
    TrimIsSolid(w);
    TrimIsSolid(model);
    p, q := Provider(v, model, None), Provider(w, v, None);
  }

  lemma KeyPrefix(v: string, w: string, m: string, n: string)
    requires v != w && v + "/" + m == w + "/" + n
    ensures v + "/" <= w || w + "/" <= v
  {
    var key := v + "/" + m;
    assert key == w + "/" + n;
    assert key[..|v|] == v && key[..|w|] == w && key[|v|] == '/' && key[|w|] == '/';
    if |v| < |w| {
      assert w == key[..|w|] && w[..|v| + 1] == key[..|v| + 1];
    } else if |w| < |v| {
      assert v == key[..|v|] && v[..|w| + 1] == key[..|w| + 1];
    }
  }

  lemma SameVendorSameModel(v: string, m: string, n: string)
    requires v + "/" + m == v + "/" + n
    ensures m == n
  {
    assert (v + "/" + m)[|v| + 1..] == m && (v + "/" + n)[|v| + 1..] == n;
  }

  /** With such vendor names, a repetition is reported only for one vendor and model asked twice. */
  lemma RepetitionIsReal(providers: seq<Provider>, lower: Lower, i: nat, j: nat)
    requires i < |providers| && j < |providers|
    requires forall p, q | p in providers && q in providers :: !(VendorKey(p, lower) + "/" <= VendorKey(q, lower))
    ensures ChainKey(providers[i], lower) == ChainKey(providers[j], lower) <==>
            VendorKey(providers[i], lower) == VendorKey(providers[j], lower)
            && ModelKey(providers[i], lower) == ModelKey(providers[j], lower)
  {
    var p, q := providers[i], providers[j];
    assert p in providers && q in providers;
    if ChainKey(p, lower) == ChainKey(q, lower) {
      if VendorKey(p, lower) != VendorKey(q, lower) {
        KeyPrefix(VendorKey(p, lower), VendorKey(q, lower), ModelKey(p, lower), ModelKey(q, lower));
        assert false;
      } else {
        SameVendorSameModel(VendorKey(p, lower), ModelKey(p, lower), ModelKey(q, lower));
      }
    }
  }

  /** Two different providers refused as one asked twice. */
  lemma DifferentProvidersMayCollide(lower: Lower)
    requires forall s | s in {"a", "a/b", "b/c", "c"} :: lower(s) == s
    ensures var p, q := Provider("a", "b/c", None), Provider("a/b", "c", None);
            && VendorKey(p, lower) != VendorKey(q, lower)
            && ChainKey(p, lower) == ChainKey(q, lower)
            && !IsChain([p, q], lower)
  {
    hide Trim;
    TrimWord("a");
    TrimWord("a/b");
    TrimWord("b/c");
    TrimWord("c");
    var p, q := Provider("a", "b/c", None), Provider("a/b", "c", None);
    assert ChainKey(p, lower) == "a/b/c" == ChainKey(q, lower);
    assert ChainKey([p, q][0], lower) == ChainKey([p, q][1], lower);
  }

  /** Two spellings of one vendor and model, apart in case and in white space around, are a repetition. */
  lemma SpellingsAreRepetitions(providers: seq<Provider>, lower: Lower, i: nat, j: nat)
    requires i < j < |providers|
    requires lower(Trim(providers[i].vendor)) == lower(Trim(providers[j].vendor))
    requires lower(Trim(providers[i].model)) == lower(Trim(providers[j].model))
    ensures !IsChain(providers, lower)
  {
    hide Trim;
    assert ChainKey(providers[i], lower) == ChainKey(providers[j], lower);
  }
}
