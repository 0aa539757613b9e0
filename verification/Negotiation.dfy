/**
 Negotiation between ports: MIME matching, merging of whole capabilities, and
 the merge of stream meta data with a capability.
 */
module Negotiation {
  import opened CapabilityCheck

  // ------------------------------------------------------------------
  // MIME types
  // ------------------------------------------------------------------

  /** `tolower` of the C locale. */
  function ToLower(c: char): char {
    if 'A' <= c <= 'Z' then c + ('a' - 'A') else c
  }

  predicate EqIgnoreCase(s: string, t: string) {
    |s| == |t| && forall i :: 0 <= i < |s| ==> ToLower(s[i]) == ToLower(t[i])
  }

  /** The position of the first slash, or the length of the string. */
  function FindSlash(s: string): (i: nat)
    ensures i <= |s|
    ensures '/' !in s[..i]
    ensures i < |s| ==> s[i] == '/'
  {
    if s == "" then 0 else if s[0] == '/' then 0 else
      var i := 1 + FindSlash(s[1..]);
      assert s[..i] == [s[0]] + s[1..][..i - 1];
      i
  }

  /** A slash after at least one character. */
  predicate HasType(mime: string) {
    0 < FindSlash(mime) < |mime|
  }

  function TypeOf(mime: string): string
    requires HasType(mime)
  {
    mime[..FindSlash(mime)]
  }

  function SubtypeOf(mime: string): string
    requires HasType(mime)
  {
    mime[FindSlash(mime) + 1..]
  }

  function IsSubsetMime(subset: string, universe: string): bool {
    if !HasType(subset) then false
    else if universe == "*" then true
    else if !HasType(universe) then false
    else if !EqIgnoreCase(TypeOf(subset), TypeOf(universe)) then false
    else if SubtypeOf(universe) == "*" then true
    else EqIgnoreCase(SubtypeOf(universe), SubtypeOf(subset))
  }

  /** Splitting at the first slash is the inverse of writing type, slash, subtype. */
  lemma SplitMime(kind: string, sub: string)
    requires kind != "" && '/' !in kind
    ensures HasType(kind + "/" + sub)
    ensures TypeOf(kind + "/" + sub) == kind && SubtypeOf(kind + "/" + sub) == sub
  {
    SlashAt(kind, sub);
  }

  lemma {:induction false} SlashAt(kind: string, sub: string)
    requires '/' !in kind
    ensures FindSlash(kind + "/" + sub) == |kind|
  {
    if kind != "" {
      SlashAt(kind[1..], sub);
      assert (kind + "/" + sub)[1..] == kind[1..] + "/" + sub;
    }
  }

  /** The rule of RFC 2045, section 5.1: type and subtype match without regard to case; `*` matches any. */
  lemma SubsetRule(kind: string, sub: string, kind': string, sub': string)
    requires kind != "" && '/' !in kind && kind' != "" && '/' !in kind'
    ensures IsSubsetMime(kind + "/" + sub, kind' + "/" + sub') <==>
      EqIgnoreCase(kind, kind') && (sub' == "*" || EqIgnoreCase(sub, sub'))
    ensures IsSubsetMime(kind + "/" + sub, "*")
  {
    SplitMime(kind, sub);
    SplitMime(kind', sub');
    assert kind' + "/" + sub' != "*" by {
      assert |kind' + "/" + sub'| >= 2;
    }
  }

  /** The letters `a` to `z` and `A` to `Z`, 32 apart, are the same; nothing else is. */
  predicate SameLetter(c: char, d: char) {
    || c == d
    || ('a' <= c <= 'z' && c as int == d as int + 32)
    || ('a' <= d <= 'z' && d as int == c as int + 32)
  }

  lemma EqIgnoreCaseExact(s: string, t: string)
    ensures EqIgnoreCase(s, t) <==> |s| == |t| && forall i :: 0 <= i < |s| ==> SameLetter(s[i], t[i])
  {
  }

  /** The string is a type, a slash and a subtype. */
  ghost predicate IsMime(mime: string, kind: string, sub: string) {
    kind != "" && '/' !in kind && mime == kind + "/" + sub
  }

  /** The rule for all strings: the first is a MIME type, and the second is `*` or one that covers it. */
  ghost predicate Covered(mime: string, universe: string) {
    exists kind, sub :: IsMime(mime, kind, sub) && (universe == "*" || CoveredParts(kind, sub, universe))
  }

  ghost predicate CoveredParts(kind: string, sub: string, universe: string) {
    exists kind', sub' ::
      IsMime(universe, kind', sub') && EqIgnoreCase(kind, kind') && (sub' == "*" || EqIgnoreCase(sub, sub'))
  }

  lemma MimeParts(mime: string)
    requires HasType(mime)
    ensures IsMime(mime, TypeOf(mime), SubtypeOf(mime))
  {
    var i := FindSlash(mime);
    assert mime == mime[..i] + "/" + mime[i + 1..];
  }

  lemma SubsetExact(mime: string, universe: string)
    ensures IsSubsetMime(mime, universe) <==> Covered(mime, universe)
  {
    hide FindSlash, HasType, TypeOf, SubtypeOf, EqIgnoreCase;
    if IsSubsetMime(mime, universe) {
      MimeParts(mime);
      if universe != "*" {
        MimeParts(universe);
        EqSymmetric(SubtypeOf(universe), SubtypeOf(mime));
        assert CoveredParts(TypeOf(mime), SubtypeOf(mime), universe);
      }
    }
    if Covered(mime, universe) {
      var kind, sub :| IsMime(mime, kind, sub) && (universe == "*" || CoveredParts(kind, sub, universe));
      SplitMime(kind, sub);
      if universe != "*" {
        var kind', sub' :|
          IsMime(universe, kind', sub') && EqIgnoreCase(kind, kind') && (sub' == "*" || EqIgnoreCase(sub, sub'));
        SplitMime(kind', sub');
        EqSymmetric(sub, sub');
      }
    }
  }

  lemma EqSymmetric(s: string, t: string)
    ensures EqIgnoreCase(s, t) <==> EqIgnoreCase(t, s)
  {
  }

  lemma SubsetReflexive(mime: string)
    ensures IsSubsetMime(mime, mime) <==> HasType(mime)
  {
  }

  lemma StarAlone(s: string)
    ensures EqIgnoreCase(s, "*") <==> s == "*"
  {
  }

  lemma SubsetTransitive(a: string, b: string, c: string)
    requires IsSubsetMime(a, b) && IsSubsetMime(b, c)
    ensures IsSubsetMime(a, c)
  {
    assert HasType(b) && b != "*" by {
      assert b == "*" ==> !HasType(b);
    }
    if c != "*" && SubtypeOf(c) != "*" {
      StarAlone(SubtypeOf(c));
    }
  }

  // ------------------------------------------------------------------
  // Whole capabilities
  // ------------------------------------------------------------------

  datatype Capability = Capability(mime: string, keys: Keys)

  ghost function MergeCaps(origin: Capability, other: Capability): Option<Capability> {
    var keys := Merge(origin.keys, other.keys);
    if IsSubsetMime(origin.mime, other.mime) && keys.Some? then Some(Capability(origin.mime, keys.value)) else None
  }

  /** The origin's MIME type is covered by the other's, and no shared key has values that nothing satisfies together. */
  ghost predicate Compatible(origin: Capability, other: Capability) {
    && Covered(origin.mime, other.mime)
    && forall k :: k in origin.keys && k in other.keys ==> !Disjoint(origin.keys[k], other.keys[k])
  }

  /** The origin's MIME type, and exactly the configurations that both sides admit. */
  ghost predicate Unites(origin: Capability, other: Capability, res: Capability) {
    && res.mime == origin.mime
    && forall c: Config :: AdmitsAll(res.keys, c) <==> AdmitsAll(origin.keys, c) && AdmitsAll(other.keys, c)
  }

  ghost predicate Mergeable(origin: Capability, other: Capability) {
    Regular(origin.keys) && Regular(other.keys) && SoundWith(origin.keys, other.keys)
  }

  /** Which capabilities merge, and what the result means. */
  lemma MergeCapsMeaning(origin: Capability, other: Capability)
    requires Mergeable(origin, other)
    ensures MergeCaps(origin, other).Some? <==> Compatible(origin, other)
    ensures MergeCaps(origin, other).Some? ==> Unites(origin, other, MergeCaps(origin, other).value)
  {
    hide Merge, IsSubsetMime, Covered, Regular, SoundWith, AdmitsAll, Disjoint;
    SubsetExact(origin.mime, other.mime);
    MergeIsIntersection(origin.keys, other.keys);
  }

  /** Without a MIME type of its own, or with one that the other does not cover, a capability merges with nothing, whatever the keys. */
  lemma UncoveredRefused(origin: Capability, other: Capability)
    requires !Covered(origin.mime, other.mime)
    ensures MergeCaps(origin, other).None?
  {
    hide Merge, IsSubsetMime, Covered;
    SubsetExact(origin.mime, other.mime);
  }

  /** In parts, written out. */
  lemma MergeByParts(kind: string, sub: string, kind': string, sub': string, a: Keys, b: Keys)
    requires kind != "" && '/' !in kind && kind' != "" && '/' !in kind'
    requires Regular(a) && Regular(b) && SoundWith(a, b)
    ensures MergeCaps(Capability(kind + "/" + sub, a), Capability(kind' + "/" + sub', b)).Some? <==>
      && EqIgnoreCase(kind, kind') && (sub' == "*" || EqIgnoreCase(sub, sub'))
      && forall k :: k in a && k in b ==> !Disjoint(a[k], b[k])
    ensures MergeCaps(Capability(kind + "/" + sub, a), Capability("*", b)).Some? <==>
      forall k :: k in a && k in b ==> !Disjoint(a[k], b[k])
  {
    hide Merge, IsSubsetMime, EqIgnoreCase, Regular, SoundWith, AdmitsAll, Disjoint;
    SubsetRule(kind, sub, kind', sub');
    MergeIsIntersection(a, b);
  }

  method MergeCapability(origin: Capability, other: Capability) returns (ok: bool, res: Capability)
    ensures Mergeable(origin, other) ==> (ok <==> Compatible(origin, other)) && (ok ==> Unites(origin, other, res))
    ensures ok <==> MergeCaps(origin, other).Some?
    ensures res == if ok then MergeCaps(origin, other).value else Capability("", map[])
  {
    hide Merge, IsSubsetMime, Compatible, Unites, Mergeable;
    if Mergeable(origin, other) {
      MergeCapsMeaning(origin, other);
    }
    if !IsSubsetMime(origin.mime, other.mime) {
      return false, Capability("", map[]);
    }
    var merged, keys := MergeCapabilityKeys(origin.keys, other.keys);
    if !merged {
      return false, Capability("", map[]);
    }
    return true, Capability(origin.mime, keys);
  }

  /** The first capability of the set that the original merges with. */
  method ApplyCapabilitySet(origin: Capability, caps: seq<Capability>) returns (ok: bool, res: Capability)
    ensures (forall i :: 0 <= i < |caps| ==> Mergeable(origin, caps[i])) ==>
      && (ok <==> exists i :: 0 <= i < |caps| && Compatible(origin, caps[i]))
      && (ok ==> exists i ::
            && 0 <= i < |caps| && Compatible(origin, caps[i]) && Unites(origin, caps[i], res)
            && forall j :: 0 <= j < i ==> !Compatible(origin, caps[j]))
    ensures ok <==> exists i :: 0 <= i < |caps| && MergeCaps(origin, caps[i]).Some?
    ensures ok ==> exists i ::
      && 0 <= i < |caps| && MergeCaps(origin, caps[i]) == Some(res)
      && forall j :: 0 <= j < i ==> MergeCaps(origin, caps[j]).None?
  {
    hide MergeCaps, Compatible, Unites, Mergeable;
    res := Capability("", map[]);
    for i := 0 to |caps|
      invariant forall j :: 0 <= j < i ==> MergeCaps(origin, caps[j]).None?
      invariant forall j :: 0 <= j < i && Mergeable(origin, caps[j]) ==> !Compatible(origin, caps[j])
    {
      ok, res := MergeCapability(origin, caps[i]);
      if ok {
        return;
      }
    }
    ok := false;
  }

  // ------------------------------------------------------------------
  // Meta data
  // ------------------------------------------------------------------

  datatype Tag = CapTag(key: Key) | MimeTag | OtherTag(id: nat)

  datatype Any = Of(value: Value) | Text(text: string) | Unrelated(id: nat)

  type Meta = map<Tag, Any>

  predicate Known(k: Key) {
    !k.UnknownKey?
  }

  const ALL_KEYS: set<Key> := {
    AudioSampleRate, AudioChannels, AudioChannelLayout, AudioSampleFormat, AudioMpegVersion, AudioMpegLayer,
    AudioAacProfile, AudioAacLevel, AudioAacStreamFormat, VideoPixelFormat, VideoBitStreamFormat, MediaBitrate
  }

  function ValueOf(a: Any): Value {
    if a.Of? then a.value else Foreign
  }

  /** The capability keys that the meta data holds. */
  function MetaKeys(meta: Meta): Keys {
    map k | k in ALL_KEYS && CapTag(k) in meta :: ValueOf(meta[CapTag(k)])
  }

  /** The twelve capability keys, and no other tag, are taken from the meta data. */
  lemma MetaKeysExact(meta: Meta, k: Key)
    ensures k in MetaKeys(meta) <==> Known(k) && CapTag(k) in meta
    ensures k in MetaKeys(meta) && meta[CapTag(k)].Of? ==> MetaKeys(meta)[k] == meta[CapTag(k)].value
    ensures k in MetaKeys(meta) && !meta[CapTag(k)].Of? ==> MetaKeys(meta)[k] == Foreign
  {
  }

  /** `ExtractFixedCap`: one fixed value for a value of the key's type, unless its list is empty. */
  function ExtractFixed(k: Key, v: Value): Option<Value> {
    if v.Cap? && v.elem == ElemOf(k) && !Empty(v.shape) then Some(Cap(v.elem, Fixed(Pick(v.shape)))) else None
  }

  /** The two agree on the tag: its value, or its absence. */
  predicate Kept(meta: Meta, res: Meta, t: Tag) {
    (t in res <==> t in meta) && (t in meta ==> res[t] == meta[t])
  }

  /** The result of a merge: the capability's MIME, a fixed value per known key, all other tags as they were. */
  ghost predicate Negotiated(meta: Meta, mime: string, merged: Keys, res: Meta) {
    && MimeTag in res && res[MimeTag] == Text(mime)
    && (forall k :: Known(k) ==> FixedFrom(meta, merged, res, k))
    && (forall t: Tag :: t != MimeTag && !(t.CapTag? && Known(t.key)) ==> Kept(meta, res, t))
  }

  lemma FixedIsNegotiated(meta: Meta, mime: string, merged: Keys, res: Meta)
    requires
      var base := meta[MimeTag := Text(mime)];
      && (forall t: Tag :: !(t.CapTag? && Known(t.key)) ==> Kept(base, res, t))
      && (forall k :: Known(k) ==> FixedFrom(base, merged, res, k))
    ensures Negotiated(meta, mime, merged, res)
  {
    var base := meta[MimeTag := Text(mime)];
    assert Kept(base, res, MimeTag);
    forall k | Known(k)
      ensures FixedFrom(meta, merged, res, k)
    {
      assert FixedFrom(base, merged, res, k);
    }
    forall t: Tag | t != MimeTag && !(t.CapTag? && Known(t.key))
      ensures Kept(meta, res, t)
    {
      assert Kept(base, res, t);
    }
  }

  method MergeMetaWithCapability(meta: Meta, cap: Capability) returns (ok: bool, res: Meta)
    ensures ok <==> HasType(cap.mime) && Merge(MetaKeys(meta), cap.keys).Some?
    ensures !ok ==> res == map[]
    ensures ok ==> Negotiated(meta, cap.mime, Merge(MetaKeys(meta), cap.keys).value, res)
  {
    hide Merge, HasType, IsSubsetMime, MetaKeys, Negotiated, FixedFrom, Kept;
    SubsetReflexive(cap.mime);
    var metaCap := Capability(cap.mime, MetaKeys(meta));
    var merged, resCap := MergeCapability(metaCap, cap);
    if !merged {
      return false, map[];
    }
    res := FixKeys(meta[MimeTag := Text(cap.mime)], resCap.keys);
    FixedIsNegotiated(meta, cap.mime, resCap.keys, res);
    ok := true;
  }

  /** Gives every known key of `keys` its fixed value and touches no other tag. */
  method FixKeys(base: Meta, keys: Keys) returns (res: Meta)
    ensures forall t: Tag :: !(t.CapTag? && Known(t.key)) ==> Kept(base, res, t)
    ensures forall k :: Known(k) ==> FixedFrom(base, keys, res, k)
  {
    hide ExtractFixed;
    res := base;
    var rest := keys.Keys;
    while rest != {}
      invariant rest <= keys.Keys
      invariant forall t: Tag :: !(t.CapTag? && Known(t.key)) || (t.key in rest) ==> Kept(base, res, t)
      invariant forall k :: Known(k) && k !in rest ==> FixedFrom(base, keys, res, k)
      decreases rest
    {
      var k :| k in rest;
      rest := rest - {k};
      if Known(k) {
        var tmp := ExtractFixed(k, keys[k]);
        if tmp.Some? {
          res := res[CapTag(k) := Of(tmp.value)];
        }
      }
    }
  }

  /** The key has the fixed value extracted from the merged capability, or else what the meta data had. */
  predicate FixedFrom(meta: Meta, merged: Keys, res: Meta, k: Key) {
    if k in merged && ExtractFixed(k, merged[k]).Some? then
      CapTag(k) in res && res[CapTag(k)] == Of(ExtractFixed(k, merged[k]).value)
    else
      Kept(meta, res, CapTag(k))
  }

  /**
   What the extraction, which `MergeMetaWithCapability` promises for every known
   key, means: a key that either side constrains, with lists that are not empty,
   ends up with one number that every side admits.
   */
  lemma NegotiatedValue(meta: Meta, cap: Capability, merged: Keys, res: Meta, k: Key)
    requires Regular(MetaKeys(meta)) && Regular(cap.keys) && SoundWith(MetaKeys(meta), cap.keys)
    requires Merge(MetaKeys(meta), cap.keys) == Some(merged)
    requires FixedFrom(meta, merged, res, k)
    requires Known(k) && (CapTag(k) in meta || k in cap.keys)
    requires CapTag(k) in meta ==> meta[CapTag(k)].Of? && meta[CapTag(k)].value.Cap? && !Empty(meta[CapTag(k)].value.shape)
    requires k in cap.keys ==> !Empty(cap.keys[k].shape)
    ensures exists x ::
      && CapTag(k) in res && res[CapTag(k)] == Of(Cap(ElemOf(k), Fixed(x)))
      && (CapTag(k) in meta ==> AdmitsValue(meta[CapTag(k)].value, x))
      && (k in cap.keys ==> AdmitsValue(cap.keys[k], x))
  {
    hide Merge, Regular, SoundWith, MetaKeys, Empty, AdmitsValue, Pick;
    MetaKeysExact(meta, k);
    var a, b := MetaKeys(meta), cap.keys;
    MergeIsRegular(a, b);
    MergedNotEmpty(a, b, k);
    PickAdmitted(merged[k]);
    assert AdmitsValue(merged[k], Pick(merged[k].shape));
  }

  lemma PickAdmitted(v: Value)
    requires v.Cap? && !Empty(v.shape)
    ensures AdmitsValue(v, Pick(v.shape))
  {
  }

  /** Of a merged value the number taken is the fixed one, the first end of an interval, or the first of a list. */
  lemma NegotiatedChoice(meta: Meta, merged: Keys, res: Meta, k: Key, x: int)
    requires FixedFrom(meta, merged, res, k) && k in merged && merged[k].Cap? && merged[k].elem == ElemOf(k)
    requires
      || merged[k].shape == Fixed(x)
      || (merged[k].shape.Interval? && merged[k].shape.first == x)
      || (merged[k].shape.Discrete? && |merged[k].shape.vs| > 0 && merged[k].shape.vs[0] == x)
    ensures CapTag(k) in res && res[CapTag(k)] == Of(Cap(ElemOf(k), Fixed(x)))
  {
  }

  /** A merged value of another type, or an empty list, leaves the tag as it was. */
  lemma NothingToChoose(meta: Meta, merged: Keys, res: Meta, k: Key)
    requires FixedFrom(meta, merged, res, k)
    requires k !in merged || !merged[k].Cap? || merged[k].elem != ElemOf(k) || merged[k].shape == Discrete([])
    ensures CapTag(k) in res <==> CapTag(k) in meta
    ensures CapTag(k) in meta ==> res[CapTag(k)] == meta[CapTag(k)]
  {
  }
}
