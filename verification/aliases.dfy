/**
 * The alias table of a `DocJig` (docjig.go): alternative and translated
 * spellings registered under a lower-cased primary label, the heading-label
 * matcher that consults it, and the reverse lookup used for table headers.
 */
module Aliases {
  import opened Wrappers
  import opened Text

  /** One registered spelling and the language it belongs to. */
  datatype AliasEntry = AliasEntry(lang: string, spelling: string)

  /** Lower-cased primary label to its spellings, in registration order. */
  type AliasTable = map<string, seq<AliasEntry>>

  /** A Go map read: a missing key yields the nil (empty) list. */
  function Lookup(t: AliasTable, key: string): seq<AliasEntry> {
    if key in t then t[key] else []
  }

  /** Every key is the lower-case of the first spelling stored under it, which is the primary label. */
  predicate WellFormed(t: AliasTable) {
    forall k | k in t :: |t[k]| > 0 && Lower(t[k][0].spelling) == k
  }

  function Entries(lang: string, labels: seq<string>): (r: seq<AliasEntry>)
    ensures |r| == |labels|
    ensures forall i :: 0 <= i < |labels| ==> r[i] == AliasEntry(lang, labels[i])
  {
    seq(|labels|, i requires 0 <= i < |labels| => AliasEntry(lang, labels[i]))
  }

  /**
   * `DocJig.Alias`: the primary label goes in first, in the default language,
   * only when its key is new; the extra spellings follow in call order.
   * Returns the table and the key the returned `Alias` handle refers to.
   */
  function Register(t: AliasTable, defaultLang: string, primary: string, aliases: seq<string>): (r: (AliasTable, string))
    ensures r.1 == Lower(primary) && r.1 in r.0
    ensures r.1 !in t ==> r.0[r.1] == [AliasEntry(defaultLang, primary)] + Entries(defaultLang, aliases)
    ensures r.1 in t ==> r.0[r.1] == t[r.1] + Entries(defaultLang, aliases)
    ensures forall k :: k != r.1 ==> Lookup(r.0, k) == Lookup(t, k) && (k in r.0 <==> k in t)
    ensures WellFormed(t) ==> WellFormed(r.0)
  {
    var key := Lower(primary);
    LowerIdempotent(primary);
    var head := if key in t then t[key] else [AliasEntry(defaultLang, primary)];
    (t[key := head + Entries(defaultLang, aliases)], key)
  }

  /** `Alias.Lang`: appends spellings for one language after everything registered so far. */
  function AddLang(t: AliasTable, key: string, lang: string, aliases: seq<string>): (r: AliasTable)
    requires key in t
    ensures key in r && |r[key]| == |t[key]| + |aliases|
    ensures r[key][..|t[key]|] == t[key] && r[key][|t[key]|..] == Entries(lang, aliases)
    ensures forall k :: k != key ==> Lookup(r, k) == Lookup(t, k) && (k in r <==> k in t)
    ensures WellFormed(t) ==> WellFormed(r)
  {
    t[key := t[key] + Entries(lang, aliases)]
  }

  /** Whether `lowered` starts with the lower-cased spelling of `e`. */
  predicate PrefixedBy(lowered: string, e: AliasEntry) {
    HasPrefix(lowered, Lower(e.spelling))
  }

  /** The first entry, in registration order, whose spelling is a case-insensitive prefix. */
  function FirstPrefixAlias(entries: seq<AliasEntry>, lowered: string): (r: Option<nat>)
    ensures r.Some? ==> r.value < |entries| && PrefixedBy(lowered, entries[r.value])
    ensures r.Some? ==> forall j :: 0 <= j < r.value ==> !PrefixedBy(lowered, entries[j])
    ensures r.None? ==> forall j :: 0 <= j < |entries| ==> !PrefixedBy(lowered, entries[j])
  {
    if |entries| == 0 then None
    else if PrefixedBy(lowered, entries[0]) then Some(0)
    else
      match FirstPrefixAlias(entries[1..], lowered)
      case None => None
      case Some(i) => Some(i + 1)
  }

  /** The heading text left once its first `n` characters and the separators after them are dropped. */
  function Rest(heading: string, n: nat): string
    requires n <= |heading|
  {
    TrimLeft(heading[n..], IsLabelSep)
  }

  /**
   * `DocJig.matchLabel`: a heading matches a pattern when, ignoring case, it
   * starts with the pattern itself or, failing that, with one of the
   * pattern's aliases; the suffix is what follows the consumed spelling.
   */
  function MatchLabel(t: AliasTable, pattern: string, heading: string): (r: (string, bool))
  {
    var lowered := Lower(heading);
    if HasPrefix(lowered, Lower(pattern)) then
      (Rest(heading, |pattern|), true)
    else
      var entries := Lookup(t, Lower(pattern));
      match FirstPrefixAlias(entries, lowered)
      case Some(i) => (Rest(heading, |entries[i].spelling|), true)
      case None => (heading, false)
  }

  /**
   * What `MatchLabel` returns: the pattern itself, when it is a
   * case-insensitive prefix, consumes its length; otherwise the first alias
   * that is such a prefix consumes the length of its spelling; otherwise
   * the heading does not match and comes back whole.
   */
  lemma MatchLabelSpec(t: AliasTable, pattern: string, heading: string)
    ensures var r := MatchLabel(t, pattern, heading);
            && (HasPrefix(Lower(heading), Lower(pattern)) ==>
                  |pattern| <= |heading| && r == (Rest(heading, |pattern|), true))
            && (!HasPrefix(Lower(heading), Lower(pattern)) ==>
                  var entries := Lookup(t, Lower(pattern));
                  var first := FirstPrefixAlias(entries, Lower(heading));
                  && (r.1 <==> first.Some?)
                  && (first.Some? ==> |entries[first.value].spelling| <= |heading|
                                      && r.0 == Rest(heading, |entries[first.value].spelling|))
                  && (first.None? ==> r.0 == heading))
  {
  }

  /** The empty pattern is a wildcard: it matches every heading and only strips leading separators. */
  lemma EmptyPatternMatchesAll(t: AliasTable, heading: string)
    ensures MatchLabel(t, "", heading) == (TrimLeft(heading, IsLabelSep), true)
  {
    assert heading[0..] == heading;
  }

  /** A heading matches exactly when it starts with the pattern or one of its aliases, ignoring case. */
  lemma MatchLabelIff(t: AliasTable, pattern: string, heading: string)
    ensures MatchLabel(t, pattern, heading).1 <==>
              || HasPrefix(Lower(heading), Lower(pattern))
              || exists e :: e in Lookup(t, Lower(pattern)) && PrefixedBy(Lower(heading), e)
  {
    var entries := Lookup(t, Lower(pattern));
    if !HasPrefix(Lower(heading), Lower(pattern)) {
      var first := FirstPrefixAlias(entries, Lower(heading));
      if first.Some? {
        assert entries[first.value] in entries;
      } else {
        forall e | e in entries ensures !PrefixedBy(Lower(heading), e) {
          var j :| 0 <= j < |entries| && entries[j] == e;
        }
      }
    }
  }

  /** An unmatched heading comes back unchanged. */
  lemma UnmatchedKeepsHeading(t: AliasTable, pattern: string, heading: string)
    requires !MatchLabel(t, pattern, heading).1
    ensures MatchLabel(t, pattern, heading).0 == heading
  {
  }

  /**
   * Registration and matching agree: once `Register` has stored a spelling
   * under a primary label, a heading that starts with that spelling (in any
   * case) matches the primary label as a pattern.
   */
  lemma {:induction false} RegisteredAliasMatches(t: AliasTable, lang: string, primary: string,
                                                   aliases: seq<string>, i: nat, heading: string)
    requires i < |aliases|
    requires HasPrefix(Lower(heading), Lower(aliases[i]))
    ensures MatchLabel(Register(t, lang, primary, aliases).0, primary, heading).1
  {
    var t' := Register(t, lang, primary, aliases).0;
    var entries := Lookup(t', Lower(primary));
    var k := |entries| - |aliases| + i;
    assert entries[k] == AliasEntry(lang, aliases[i]);
    assert entries[k] in entries;
    MatchLabelIff(t', primary, heading);
  }

  /** Whether `variant` is, exactly, the lower-case of a spelling registered under `target`. */
  predicate IsAliasOf(t: AliasTable, variant: string, target: string) {
    exists e | e in Lookup(t, target) :: Lower(e.spelling) == variant
  }

  /** The outcome of `translateToPrimaryKey`; Go signals `Untranslated` with index -1. */
  datatype Translation = Translated(index: nat, key: string) | Untranslated

  /**
   * `DocJig.translateToPrimaryKey`: the first target (in order) having
   * `variant` among its lower-cased spellings, and that target's first
   * registered spelling.
   */
  function TranslateToPrimaryKey(t: AliasTable, variant: string, targets: seq<string>): (r: Translation)
    ensures r.Translated? ==>
              && r.index < |targets|
              && IsAliasOf(t, variant, targets[r.index])
              && (forall i :: 0 <= i < r.index ==> !IsAliasOf(t, variant, targets[i]))
              && |Lookup(t, targets[r.index])| > 0
              && r.key == Lookup(t, targets[r.index])[0].spelling
    ensures r.Untranslated? ==> forall i :: 0 <= i < |targets| ==> !IsAliasOf(t, variant, targets[i])
    ensures WellFormed(t) && r.Translated? ==> Lower(r.key) == targets[r.index]
    decreases |targets|
  {
    if |targets| == 0 then Untranslated
    else if IsAliasOf(t, variant, targets[0]) then Translated(0, Lookup(t, targets[0])[0].spelling)
    else
      match TranslateToPrimaryKey(t, variant, targets[1..])
      case Untranslated => Untranslated
      case Translated(i, key) => Translated(i + 1, key)
  }

  /**
   * A spelling that translates a header into a target also matches that
   * target as a heading pattern: an exact alias is in particular a prefix.
   */
  lemma TranslationImpliesMatch(t: AliasTable, heading: string, target: string)
    requires WellFormed(t)
    requires TranslateToPrimaryKey(t, Lower(heading), [target]).Translated?
    ensures MatchLabel(t, target, heading).1
  {
    var e :| e in Lookup(t, target) && Lower(e.spelling) == Lower(heading);
    if target in t {
      assert Lower(target) == target by {
        LowerIdempotent(t[target][0].spelling);
      }
    }
    assert PrefixedBy(Lower(heading), e);
    MatchLabelIff(t, target, heading);
  }

  /**
   * A heading written as the pattern, a colon and a blank, then text that
   * does not start with a separator, matches the pattern with that text as
   * the suffix.
   */
  lemma MatchAfterColon(t: AliasTable, pattern: string, rest: string)
    requires |rest| > 0 ==> !IsLabelSep(rest[0])
    ensures MatchLabel(t, pattern, pattern + ": " + rest) == (rest, true)
  {
    var heading := pattern + ": " + rest;
    LowerAppend(pattern, ": " + rest);
    assert Lower(heading)[..|pattern|] == Lower(pattern);
    var tail := heading[|pattern|..];
    assert tail == ": " + rest;
    assert LeadingCount(tail, IsLabelSep) == 2 by {
      assert tail[1..] == " " + rest;
      assert tail[2..] == rest;
      assert LeadingCount(tail[2..], IsLabelSep) == 0;
    }
    assert tail[2..] == rest;
  }
}
