/** Whether a typed phrase may still become a macro key with spaces in it. */
module MacroPrefix {

  import opened MacroPlan
  import opened MacroText

  /** The rule for the whole buffer: the exact key, or else the lowered one. */
  predicate FullMatch(buffer: seq<Wide>, keys: set<seq<Wide>>, l: Locale) {
    buffer in keys || MapAll(l.lower, buffer) in keys
  }

  predicate HasUpper(s: seq<Wide>, l: Locale) {
    exists i :: 0 <= i < |s| && l.isUpper(s[i])
  }

  /** A key with capitals is matched as typed, any other in lower case. */
  predicate Starts(candidate: seq<Wide>, key: seq<Wide>, l: Locale) {
    if HasUpper(key, l) then candidate <= key else MapAll(l.lower, candidate) <= key
  }

  /** `IsSpaceMacroPrefix`. */
  method IsSpaceMacroPrefix(candidate: seq<Wide>, spaceKeys: set<seq<Wide>>, l: Locale) returns (found: bool)
    ensures found <==> candidate != [] && exists key :: key in spaceKeys && Starts(candidate, key, l)
    ensures LowersProperly(l) ==> (found <==> candidate != [] && exists s :: FullMatch(candidate + s, spaceKeys, l))
  {
    ghost var lawful := LowersProperly(l);
    if lawful { PrefixIsReachability(candidate, spaceKeys, l); }
    if spaceKeys == {} || candidate == [] {
      return false;
    }
    var candLower: seq<Wide> := [];
    var rest := spaceKeys;
    while rest != {}
      invariant rest <= spaceKeys
      invariant candLower == [] || candLower == MapAll(l.lower, candidate)
      invariant forall key :: key in spaceKeys && Starts(candidate, key, l) ==> key in rest
      decreases |rest|
    {
      var key :| key in rest;
      rest := rest - {key};
      if |key| < |candidate| {
        continue;
      }
      if HasUpper(key, l) {
        if key[..|candidate|] == candidate { return true; }
      } else {
        if candLower == [] {
          candLower := MapAll(l.lower, candidate);
        }
        if key[..|candLower|] == candLower { return true; }
      }
    }
    return false;
  }

  lemma LoweredHasNoUpper(s: seq<Wide>, l: Locale)
    requires LowersProperly(l)
    ensures !HasUpper(MapAll(l.lower, s), l)
    ensures !HasUpper(s, l) ==> MapAll(l.lower, s) == s
  {
    var t := MapAll(l.lower, s);
    forall i | 0 <= i < |t| ensures !l.isUpper(t[i]) {
      assert l.lower(l.lower(s[i])) == l.lower(s[i]);
      assert l.isUpper(t[i]) <==> l.lower(t[i]) != t[i];
    }
    if !HasUpper(s, l) {
      forall i | 0 <= i < |s| ensures t[i] == s[i] {
        assert l.isUpper(s[i]) <==> l.lower(s[i]) != s[i];
      }
    }
  }

  /** A key the phrase starts is reached by typing the rest of that key. */
  lemma CompletionOf(candidate: seq<Wide>, key: seq<Wide>, keys: set<seq<Wide>>, l: Locale)
    requires LowersProperly(l) && key in keys && Starts(candidate, key, l)
    ensures |candidate| <= |key| && FullMatch(candidate + key[|candidate|..], keys, l)
  {
    var s := key[|candidate|..];
    if HasUpper(key, l) {
      assert candidate + s == key;
    } else {
      LoweredHasNoUpper(key, l);
      assert MapAll(l.lower, candidate + s) == key by {
        var t := MapAll(l.lower, candidate + s);
        forall i | 0 <= i < |key| ensures t[i] == key[i] {
          if i < |candidate| {
            assert MapAll(l.lower, candidate)[i] == key[i];
          } else {
            assert MapAll(l.lower, key)[i] == key[i];
          }
        }
      }
    }
  }

  /** Whatever key a completion reaches, the phrase starts it. */
  lemma StartOf(candidate: seq<Wide>, s: seq<Wide>, keys: set<seq<Wide>>, l: Locale)
    requires LowersProperly(l) && FullMatch(candidate + s, keys, l)
    ensures exists key :: key in keys && Starts(candidate, key, l)
  {
    var whole := candidate + s;
    var lowered := MapAll(l.lower, whole);
    if whole in keys {
      LoweredHasNoUpper(whole, l);
      if !HasUpper(whole, l) {
        assert MapAll(l.lower, candidate) == candidate by {
          forall i | 0 <= i < |candidate| ensures MapAll(l.lower, candidate)[i] == candidate[i] {
            assert lowered[i] == whole[i];
          }
        }
      }
      assert Starts(candidate, whole, l);
    } else {
      LoweredHasNoUpper(whole, l);
      assert lowered[..|candidate|] == MapAll(l.lower, candidate);
      assert Starts(candidate, lowered, l);
    }
  }

  /** The buffer is kept exactly when a key is still within reach. */
  lemma PrefixIsReachability(candidate: seq<Wide>, keys: set<seq<Wide>>, l: Locale)
    requires LowersProperly(l)
    ensures (exists key :: key in keys && Starts(candidate, key, l))
            <==> exists s :: FullMatch(candidate + s, keys, l)
  {
    if key :| key in keys && Starts(candidate, key, l) {
      CompletionOf(candidate, key, keys, l);
    }
    if s :| FullMatch(candidate + s, keys, l) {
      StartOf(candidate, s, keys, l);
    }
  }

  /** The full-buffer rule is the one the expansion plan tries first. */
  lemma FullMatchIsThePlans(input: Inputs, l: Locale)
    ensures FullMatch(input.raw, input.table.Keys, l)
            <==> var m := Match(input, l); m.Some? && (m.value.kind.Full? || m.value.kind.FullLowered?)
  {
    hide Match;
    CandidatesAre(input, l);
  }
}
