/** The client-side list of shortcut keys: adding, removing and editing entries locally,
    looking a key up the way the backend does (ignoring ASCII case), and replacing the list
    with the one the backend saved. The save call is an outcome given to the operation. */
module ShortcutList {
  import opened Wrappers
  import opened Strings
  import opened Sorting
  import opened Shortcut

  /** findIndex with ===: the position of the first entry whose key is exactly `key`, or the
      length of the list when there is none. */
  function FirstExact(shortcuts: seq<ShortcutConfig>, key: string): (i: nat)
    ensures i <= |shortcuts|
    ensures i < |shortcuts| ==> shortcuts[i].key == key
    ensures forall j :: 0 <= j < i ==> shortcuts[j].key != key
    decreases |shortcuts|
  {
    if shortcuts == [] then 0
    else if shortcuts[0].key == key then 0
    else 1 + FirstExact(shortcuts[1..], key)
  }

  /** A Partial<ShortcutConfig>: the fields the caller gives. */
  datatype Patch = Patch(key: Option<string>, targetDir: Option<string>, caption: Option<string>)

  /** Object.assign: the given fields replace those of the entry, the others stay. */
  function Merge(config: ShortcutConfig, patch: Patch): (r: ShortcutConfig)
  {
    ShortcutConfig(
      if patch.key.Some? then patch.key.value else config.key,
      if patch.targetDir.Some? then patch.targetDir.value else config.targetDir,
      if patch.caption.Some? then patch.caption.value else config.caption)
  }

  /** Merging an empty patch changes nothing, merging twice is merging once, and a merged
      field holds the given value. */
  lemma MergeProperties(config: ShortcutConfig, patch: Patch)
    ensures Merge(config, Patch(None, None, None)) == config
    ensures Merge(Merge(config, patch), patch) == Merge(config, patch)
    ensures patch.targetDir.Some? ==> Merge(config, patch).targetDir == patch.targetDir.value
    ensures patch.key.None? ==> Merge(config, patch).key == config.key
  {
  }

  /** removeShortcut */
  function RemoveSpec(shortcuts: seq<ShortcutConfig>, key: string): seq<ShortcutConfig>
  {
    var i := FirstExact(shortcuts, key);
    if i < |shortcuts| then Removed(shortcuts, i) else shortcuts
  }

  /** updateShortcut */
  function UpdateSpec(shortcuts: seq<ShortcutConfig>, key: string, patch: Patch): seq<ShortcutConfig>
  {
    var i := FirstExact(shortcuts, key);
    if i < |shortcuts| then shortcuts[i := Merge(shortcuts[i], patch)] else shortcuts
  }

  /** isValidShortcut: the key selects an entry whose folder is set. */
  predicate IsValidShortcut(shortcuts: seq<ShortcutConfig>, key: string)
  {
    Lookup(shortcuts, key).Some? && Lookup(shortcuts, key).value.targetDir != ""
  }

  /** The case-insensitive lookup finds a matching entry, the first one, and none when no key
      matches. */
  lemma LookupFindsFirst(shortcuts: seq<ShortcutConfig>, key: string)
    ensures Lookup(shortcuts, key).None? <==> forall j :: 0 <= j < |shortcuts| ==> !EqualFold(shortcuts[j].key, key)
    ensures Lookup(shortcuts, key).Some? ==>
      exists i :: 0 <= i < |shortcuts| && Lookup(shortcuts, key).value == shortcuts[i] && EqualFold(shortcuts[i].key, key)
        && forall j :: 0 <= j < i ==> !EqualFold(shortcuts[j].key, key)
  {
    var i := FirstKeyMatch(shortcuts, key);
    if i < |shortcuts| {
      assert Lookup(shortcuts, key).value == shortcuts[i];
    }
  }

  /** i is the position of the first entry whose key matches ignoring ASCII case. */
  predicate FirstMatchAt(shortcuts: seq<ShortcutConfig>, key: string, i: int)
  {
    && 0 <= i < |shortcuts| && EqualFold(shortcuts[i].key, key)
    && forall j :: 0 <= j < i ==> !EqualFold(shortcuts[j].key, key)
  }

  /** There is at most one first match. */
  lemma FirstMatchUnique(shortcuts: seq<ShortcutConfig>, key: string)
    ensures forall i, k :: FirstMatchAt(shortcuts, key, i) && FirstMatchAt(shortcuts, key, k) ==> i == k
  {
  }

  /** An added entry is found by its key unless an earlier entry already answers to it, and
      lookups that succeeded before still give the same entry. */
  lemma {:induction false} AddedIsFound(shortcuts: seq<ShortcutConfig>, config: ShortcutConfig, key: string)
    ensures Lookup(shortcuts, key).Some? ==> Lookup(shortcuts + [config], key) == Lookup(shortcuts, key)
    ensures Lookup(shortcuts, key).None? && EqualFold(config.key, key) ==> Lookup(shortcuts + [config], key) == Some(config)
    decreases |shortcuts|
  {
    if shortcuts != [] {
      AddedIsFound(shortcuts[1..], config, key);
      assert (shortcuts + [config])[1..] == shortcuts[1..] + [config];
    }
  }

  /** Removing the key of an entry just added gives back the list before, when no entry had
      that key already. */
  lemma {:induction false} RemoveUndoesAdd(shortcuts: seq<ShortcutConfig>, config: ShortcutConfig)
    requires forall j :: 0 <= j < |shortcuts| ==> shortcuts[j].key != config.key
    ensures RemoveSpec(shortcuts + [config], config.key) == shortcuts
    decreases |shortcuts|
  {
    var s := shortcuts + [config];
    if shortcuts != [] {
      assert s[1..] == shortcuts[1..] + [config];
      RemoveUndoesAdd(shortcuts[1..], config);
    }
    assert FirstExact(s, config.key) == |shortcuts| by {
      FirstExactAt(s, config.key, |shortcuts|);
    }
    assert s[..|shortcuts|] == shortcuts;
  }

  /** The first exact match is at i when the key is there and nowhere before. */
  lemma FirstExactAt(shortcuts: seq<ShortcutConfig>, key: string, i: nat)
    requires i < |shortcuts| && shortcuts[i].key == key
    requires forall j :: 0 <= j < i ==> shortcuts[j].key != key
    ensures FirstExact(shortcuts, key) == i
  {
  }

  /** removeShortcut drops the first entry with exactly that key and keeps the others in
      order; with no such entry nothing changes. */
  lemma RemoveEffect(shortcuts: seq<ShortcutConfig>, key: string)
    ensures var i, r := FirstExact(shortcuts, key), RemoveSpec(shortcuts, key);
      if i == |shortcuts| then r == shortcuts
      else
        && |r| == |shortcuts| - 1
        && (forall j :: 0 <= j < i ==> r[j] == shortcuts[j] && r[j].key != key)
        && (forall j :: i <= j < |r| ==> r[j] == shortcuts[j + 1])
        && multiset(r) + multiset{shortcuts[i]} == multiset(shortcuts)
  {
    var i := FirstExact(shortcuts, key);
    if i < |shortcuts| {
      RemovedKeepsOthers(shortcuts, i);
    }
  }

  /** updateShortcut changes only the first entry with exactly that key, merging the patch
      into it; with no such entry nothing changes. */
  lemma UpdateEffect(shortcuts: seq<ShortcutConfig>, key: string, patch: Patch)
    ensures var i, r := FirstExact(shortcuts, key), UpdateSpec(shortcuts, key, patch);
      && |r| == |shortcuts|
      && (forall j :: 0 <= j < |shortcuts| && j != i ==> r[j] == shortcuts[j])
      && (i < |shortcuts| ==> r[i] == Merge(shortcuts[i], patch) && shortcuts[i].key == key)
      && (i == |shortcuts| ==> r == shortcuts)
  {
  }

  class Shortcuts {
    var shortcuts: seq<ShortcutConfig>

    constructor ()
      ensures shortcuts == []
    {
      shortcuts := [];
    }

    /** saveShortcuts: the list is replaced only when the backend saved it. */
    method SaveShortcuts(configs: seq<ShortcutConfig>, saved: bool) returns (ok: bool)
      modifies this
      ensures ok == saved
      ensures shortcuts == if saved then configs else old(shortcuts)
    {
      if !saved {
        return false;
      }
      shortcuts := configs;
      return true;
    }

    method AddShortcut(config: ShortcutConfig)
      modifies this
      ensures shortcuts == old(shortcuts) + [config]
    {
      shortcuts := shortcuts + [config];
    }

    method RemoveShortcut(key: string)
      modifies this
      ensures shortcuts == RemoveSpec(old(shortcuts), key)
    {
      var index := FirstExact(shortcuts, key);
      if index != |shortcuts| {
        shortcuts := shortcuts[..index] + shortcuts[index + 1..];
      }
    }

    method UpdateShortcut(key: string, patch: Patch)
      modifies this
      ensures shortcuts == UpdateSpec(old(shortcuts), key, patch)
    {
      var index := FirstExact(shortcuts, key);
      if index != |shortcuts| {
        shortcuts := shortcuts[index := Merge(shortcuts[index], patch)];
      }
    }

    /** getShortcutByKey: the first entry whose key matches ignoring ASCII case. */
    function GetShortcutByKey(key: string): (r: Option<ShortcutConfig>)
      reads this
      ensures r.Some? ==> exists i :: FirstMatchAt(shortcuts, key, i) && r.value == shortcuts[i]
      ensures r.None? <==> forall c :: c in shortcuts ==> !EqualFold(c.key, key)
    {
      LookupFindsFirst(shortcuts, key);
      Lookup(shortcuts, key)
    }

    /** isValidShortcut: the first entry whose key matches ignoring ASCII case has its folder
        set. */
    predicate IsValid(key: string)
      reads this
      ensures IsValid(key) <==> exists i :: FirstMatchAt(shortcuts, key, i) && shortcuts[i].targetDir != ""
    {
      LookupFindsFirst(shortcuts, key);
      FirstMatchUnique(shortcuts, key);
      IsValidShortcut(shortcuts, key)
    }
  }
}
