/**
 * Notification groups and the edits the `snitch` commands make to them,
 * as functions on values. The command handlers in `Cog.Snitch` perform the
 * same edits in place, one argument at a time, and are specified by these
 * functions.
 */
module Groups {
  import opened Wrappers
  import opened Guilds

  /** One entry of the "notifygroups" dictionary. Targets are keyed by the argument text that named them. */
  datatype Group = Group(words: seq<string>, targets: map<string, Target>, message: Option<string>)

  /** `{"words": [], "targets": {}}`: the group a command creates when the name is unknown. */
  const NewGroup: Group := Group([], map[], None)

  /** `notifygroups.get(group)`, or a fresh group when there is none. */
  function GroupOrNew(groups: map<string, Group>, name: string): (g: Group)
    ensures name in groups ==> g == groups[name]
    ensures name !in groups ==> g == NewGroup
  {
    if name in groups then groups[name] else NewGroup
  }

  predicate NoDuplicates(s: seq<string>)
  {
    forall i, j :: 0 <= i < j < |s| ==> s[i] != s[j]
  }

  // ----- `_words_add`

  /**
   * Append each argument that the list does not already hold, in argument
   * order. The existing list is kept as a prefix and nothing else is added.
   */
  function AddWords(ws: seq<string>, added: seq<string>): (r: seq<string>)
    ensures |ws| <= |r| && r[..|ws|] == ws
    ensures forall w :: w in r <==> w in ws || w in added
    decreases |added|
  {
    if added == [] then ws
    else
      var before := AddWords(ws, added[..|added| - 1]);
      var w := added[|added| - 1];
      assert added == added[..|added| - 1] + [w];
      if w in before then before else before + [w]
  }

  /** A list without duplicates stays without duplicates. */
  lemma {:induction false} AddWordsNoDuplicates(ws: seq<string>, added: seq<string>)
    requires NoDuplicates(ws)
    ensures NoDuplicates(AddWords(ws, added))
    decreases |added|
  {
    if added != [] {
      AddWordsNoDuplicates(ws, added[..|added| - 1]);
    }
  }

  /** Adding words that are all present already leaves the list unchanged. */
  lemma {:induction false} AddPresentWords(ws: seq<string>, added: seq<string>)
    requires forall w :: w in added ==> w in ws
    ensures AddWords(ws, added) == ws
    decreases |added|
  {
    if added != [] {
      AddPresentWords(ws, added[..|added| - 1]);
      assert added[|added| - 1] in added;
    }
  }

  /** So adding the same words twice is the same as adding them once. */
  lemma AddWordsIdempotent(ws: seq<string>, added: seq<string>)
    ensures AddWords(AddWords(ws, added), added) == AddWords(ws, added)
  {
    AddPresentWords(AddWords(ws, added), added);
  }

  // ----- `_words_remove`

  /** Position of the first occurrence of `w`. */
  function FirstIndex(ws: seq<string>, w: string): (i: nat)
    requires w in ws
    ensures i < |ws| && ws[i] == w && w !in ws[..i]
  {
    if ws[0] == w then 0
    else
      var i := FirstIndex(ws[1..], w);
      assert ws[..i + 1] == [ws[0]] + ws[1..][..i];
      i + 1
  }

  /** `list.remove(w)`: drop the first occurrence and keep the order of the rest. */
  function RemoveFirst(ws: seq<string>, w: string): (r: seq<string>)
    requires w in ws
    ensures |r| == |ws| - 1
    ensures forall x :: x in r ==> x in ws
    ensures r == ws[..FirstIndex(ws, w)] + ws[FirstIndex(ws, w) + 1..]
  {
    var i := FirstIndex(ws, w);
    ws[..i] + ws[i + 1..]
  }

  /** Exactly one copy of `w` goes. */
  lemma RemoveFirstCounts(ws: seq<string>, w: string)
    requires w in ws
    ensures multiset(RemoveFirst(ws, w)) == multiset(ws) - multiset{w}
  {
    var i := FirstIndex(ws, w);
    assert ws == ws[..i] + [w] + ws[i + 1..];
    assert multiset(ws) == multiset(ws[..i]) + multiset{w} + multiset(ws[i + 1..]);
  }

  /** How a `noton` command ends: all words removed, or a `ValueError` at the first absent one. */
  datatype Removal = Removed(words: seq<string>) | Missing(words: seq<string>, word: string)

  /**
   * Remove each argument in turn; at the first argument that is not in the
   * list, stop with the list as the earlier removals left it.
   */
  function RemoveWords(ws: seq<string>, removed: seq<string>): (r: Removal)
    ensures r.Removed? ==> |r.words| + |removed| == |ws|
    ensures r.Missing? ==> r.word in removed && r.word !in r.words
    decreases |removed|
  {
    if removed == [] then Removed(ws)
    else
      var w := removed[|removed| - 1];
      assert removed == removed[..|removed| - 1] + [w];
      match RemoveWords(ws, removed[..|removed| - 1])
      case Missing(part, v) => Missing(part, v)
      case Removed(cur) =>
        if w in cur then Removed(RemoveFirst(cur, w)) else Missing(cur, w)
  }

  /** Each successful removal takes one copy of its word; a failed run has lost only words of the list. */
  lemma {:induction false} RemoveWordsCounts(ws: seq<string>, removed: seq<string>)
    ensures var r := RemoveWords(ws, removed);
            && (r.Removed? ==> multiset(r.words) + multiset(removed) == multiset(ws))
            && (r.Missing? ==> multiset(r.words) <= multiset(ws))
    decreases |removed|
  {
    if removed != [] {
      var prefix, w := removed[..|removed| - 1], removed[|removed| - 1];
      assert removed == prefix + [w];
      assert multiset(removed) == multiset(prefix) + multiset{w};
      RemoveWordsCounts(ws, prefix);
      var prev := RemoveWords(ws, prefix);
      if prev.Removed? {
        RemoveWordsStep(ws, prefix, w, prev.words);
        if w in prev.words {
          RemoveFirstCounts(prev.words, w);
        }
      } else {
        MissingPropagates(ws, prefix, w);
      }
    }
  }

  lemma MissingPropagates(ws: seq<string>, prefix: seq<string>, w: string)
    requires RemoveWords(ws, prefix).Missing?
    ensures RemoveWords(ws, prefix + [w]) == RemoveWords(ws, prefix)
  {
    assert (prefix + [w])[..|prefix|] == prefix;
  }

  /** One more argument, after the earlier ones all succeeded. */
  lemma RemoveWordsStep(ws: seq<string>, prefix: seq<string>, w: string, cur: seq<string>)
    requires RemoveWords(ws, prefix) == Removed(cur)
    ensures RemoveWords(ws, prefix + [w]) == if w in cur then Removed(RemoveFirst(cur, w)) else Missing(cur, w)
  {
    assert (prefix + [w])[..|prefix|] == prefix;
  }

  /** Once a removal has failed, later arguments are never looked at. */
  lemma {:induction false} RemoveWordsStopsAtMissing(ws: seq<string>, removed: seq<string>, k: nat)
    requires k < |removed| && RemoveWords(ws, removed[..k]).Missing?
    ensures RemoveWords(ws, removed) == RemoveWords(ws, removed[..k])
    decreases |removed| - k
  {
    var n := |removed| - 1;
    if k < n {
      assert removed[..n][..k] == removed[..k];
      RemoveWordsStopsAtMissing(ws, removed[..n], k);
    }
    assert removed == removed[..n] + [removed[n]];
    MissingPropagates(ws, removed[..n], removed[n]);
  }

  /** Removing a word the list does not hold raises, whatever else is removed with it. */
  lemma RemoveAbsentWordFails(ws: seq<string>, removed: seq<string>, w: string)
    requires w in removed && w !in ws
    ensures RemoveWords(ws, removed).Missing?
  {
    RemoveWordsCounts(ws, removed);
    assert w in multiset(removed);
    assert w !in multiset(ws);
  }

  /** Adding `a` and then `b` is adding `a + b`: the arguments are taken one after another. */
  lemma {:induction false} AddWordsAppend(ws: seq<string>, a: seq<string>, b: seq<string>)
    ensures AddWords(ws, a + b) == AddWords(AddWords(ws, a), b)
    decreases |b|
  {
    if b == [] {
      assert a + b == a;
    } else {
      var b' := b[..|b| - 1];
      assert (a + b)[..|a + b| - 1] == a + b';
      assert (a + b)[|a + b| - 1] == b[|b| - 1];
      AddWordsAppend(ws, a, b');
    }
  }

  /** Distinct words that are all absent are appended in argument order. */
  lemma {:induction false} AddAbsentWords(ws: seq<string>, added: seq<string>)
    requires NoDuplicates(added)
    requires forall i :: 0 <= i < |added| ==> added[i] !in ws
    ensures AddWords(ws, added) == ws + added
    decreases |added|
  {
    if added != [] {
      var init := added[..|added| - 1];
      var w := added[|added| - 1];
      forall i | 0 <= i < |init| ensures init[i] !in ws && init[i] != w {
        assert init[i] == added[i];
      }
      AddAbsentWords(ws, init);
      assert w !in ws + init;
      assert (ws + init) + [w] == ws + added;
    }
  }

  /** A word the list does not hold is appended at the end. */
  lemma AddAbsentWord(ws: seq<string>, w: string)
    requires w !in ws
    ensures AddWords(ws, [w]) == ws + [w]
  {
    assert [w][..0] == [];
  }

  /** The first occurrence of a word appended to a list without it is the appended one. */
  lemma RemoveAppended(ws: seq<string>, w: string)
    requires w !in ws
    ensures RemoveFirst(ws + [w], w) == ws
  {
    var added := ws + [w];
    assert forall j :: 0 <= j < |ws| ==> added[j] == ws[j];
    var i := FirstIndex(added, w);
    assert i == |ws|;
    assert added[..i] == ws;
  }

  /** Removing a word that was just added restores the list. */
  lemma RemoveAfterAdd(ws: seq<string>, w: string)
    requires w !in ws
    ensures RemoveWords(AddWords(ws, [w]), [w]) == Removed(ws)
  {
    AddAbsentWord(ws, w);
    var added := ws + [w];
    assert RemoveWords(added, []) == Removed(added);
    RemoveWordsStep(added, [], w, added);
    assert [] + [w] == [w];
    RemoveAppended(ws, w);
  }

  // ----- `_snitch_add` and `_snitch_del`

  /** Store one argument under its own text if it resolves; an unresolved argument changes nothing, and no other key changes. */
  function AddTarget(g: Guild, targets: map<string, Target>, text: string): (r: map<string, Target>)
    ensures forall k :: k in r <==> k in targets || (k == text && IdentifyTarget(g, text).Some?)
    ensures IdentifyTarget(g, text).Some? ==> text in r && r[text] == TargetOf(IdentifyTarget(g, text).value)
    ensures forall k :: k in targets && (k != text || IdentifyTarget(g, text).None?) ==> r[k] == targets[k]
  {
    match IdentifyTarget(g, text)
    case Some(e) => targets[text := TargetOf(e)]
    case None => targets
  }

  /** `snitch to` on a group's targets: each argument in turn. */
  function AddTargets(g: Guild, targets: map<string, Target>, texts: seq<string>): (r: map<string, Target>)
    ensures forall k :: k in targets ==> k in r
    ensures forall k :: k in r && k !in targets ==> k in texts
    decreases |texts|
  {
    if texts == [] then targets
    else AddTarget(g, AddTargets(g, targets, texts[..|texts| - 1]), texts[|texts| - 1])
  }

  /**
   * Every resolved argument is stored under its own text, as the record of
   * what it resolved to; unresolved arguments are not stored, and every other
   * key keeps its target.
   */
  lemma {:induction false} AddTargetsSpec(g: Guild, targets: map<string, Target>, texts: seq<string>)
    ensures var r := AddTargets(g, targets, texts);
            && (forall k :: k in r <==> k in targets || (k in texts && IdentifyTarget(g, k).Some?))
            && (forall k :: k in texts && IdentifyTarget(g, k).Some? ==> r[k] == TargetOf(IdentifyTarget(g, k).value))
            && (forall k :: k in targets && k !in texts ==> r[k] == targets[k])
            && (forall k :: k in targets && k in texts && IdentifyTarget(g, k).None? ==> r[k] == targets[k])
    decreases |texts|
  {
    if texts != [] {
      var prefix, t := texts[..|texts| - 1], texts[|texts| - 1];
      assert texts == prefix + [t];
      assert forall k :: k in texts <==> k in prefix || k == t;
      AddTargetsSpec(g, targets, prefix);
    }
  }

  /** `snitch notto` on an existing group: drop every named key that is present, and nothing else. */
  function RemoveTargets(targets: map<string, Target>, texts: seq<string>): (r: map<string, Target>)
    ensures forall k :: k in r <==> k in targets && k !in texts
    ensures forall k :: k in r ==> r[k] == targets[k]
    decreases |texts|
  {
    if texts == [] then targets
    else
      var t := texts[|texts| - 1];
      assert texts == texts[..|texts| - 1] + [t];
      var before := RemoveTargets(targets, texts[..|texts| - 1]);
      if t in before then before - {t} else before
  }
}
