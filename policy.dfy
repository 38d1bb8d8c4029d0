/**
 * The two pieces of configuration the handler re-reads on every request: the
 * block rule given by `-block-if` (`key:value`) and the set of metadata keys
 * given by `-pass-through` (comma-separated).
 */
module Policy {
  import opened Wrappers
  import opened GoStrings
  import opened Storage

  /** The value of both flags when they are not given. */
  const DefaultFlag := ""

  /** A parsed `-block-if` rule: objects whose metadata maps `key` to `value` are hidden. */
  datatype BlockRule = BlockRule(key: string, value: string)

  /** The text of the error a malformed `-block-if` value produces. */
  const BlockIfMessage := "unexpected block-if argument: "

  /**
   * `parseBlockIfMeta`: the flag must split on ':' into exactly two pieces,
   * that is, hold exactly one ':'. Anything else, the empty default
   * included, is an error.
   */
  function ParseBlockIfMeta(blockIf: string): (r: Result<BlockRule, Error>)
    ensures r.Ok? <==> Count(blockIf, ':') == 1
    ensures r.Ok? ==> r.value.key + ":" + r.value.value == blockIf
    ensures r.Ok? ==> ':' !in r.value.key && ':' !in r.value.value
    ensures r.Err? ==> r.error == Failure(BlockIfMessage)
  {
    SplitShape(blockIf, ':');
    var parts := Split(blockIf, ':');
    if |parts| != 2 then Err(Failure(BlockIfMessage))
    else
      JoinSplit(blockIf, ':');
      assert parts[1..] == [parts[1]];
      Ok(BlockRule(parts[0], parts[1]))
  }

  /** Every rule written as `key:value`, with no ':' in either part, parses back to itself. */
  lemma ParseBlockIfMetaOfRule(key: string, value: string)
    requires ':' !in key && ':' !in value
    ensures ParseBlockIfMeta(key + ":" + value) == Ok(BlockRule(key, value))
  {
    SplitJoin([key, value], ':');
    assert Join([key, value], ':') == key + ":" + value by {
      assert [key, value][1..] == [value];
    }
  }

  /** Go's `m[k]` on a `map[string]string`: a missing key reads as "". */
  function Lookup(m: map<string, string>, k: string): string
  {
    if k in m then m[k] else ""
  }

  /**
   * `isBlocked`: an error exactly when the rule does not parse; otherwise
   * blocked exactly when the object's metadata, read with missing keys as
   * "", holds the rule's value under the rule's key.
   */
  function IsBlocked(metadata: map<string, string>, blockIf: string): (r: Result<bool, Error>)
    ensures r.Err? <==> ParseBlockIfMeta(blockIf).Err?
    ensures r.Err? ==> r.error == ParseBlockIfMeta(blockIf).error
    ensures r.Ok? ==> (r.value <==>
      Lookup(metadata, ParseBlockIfMeta(blockIf).value.key) == ParseBlockIfMeta(blockIf).value.value)
  {
    match ParseBlockIfMeta(blockIf)
    case Err(e) => Err(e)
    case Ok(rule) => Ok(Lookup(metadata, rule.key) == rule.value)
  }

  /** A well-formed rule `key:value` blocks exactly the objects whose metadata reads `value` at `key`. */
  lemma IsBlockedByRule(metadata: map<string, string>, key: string, value: string)
    requires ':' !in key && ':' !in value
    ensures IsBlocked(metadata, key + ":" + value) == Ok(Lookup(metadata, key) == value)
  {
    ParseBlockIfMetaOfRule(key, value);
  }

  /** A rule with an empty value, `key:`, blocks every object that lacks the key. */
  lemma EmptyValueBlocksObjectsWithoutKey(metadata: map<string, string>, key: string)
    requires ':' !in key && key !in metadata
    ensures IsBlocked(metadata, key + ":") == Ok(true)
  {
    IsBlockedByRule(metadata, key, "");
    assert key + ":" + "" == key + ":";
  }

  /** With the default empty `-block-if`, every object's check is an error. */
  lemma DefaultBlockIfIsError(metadata: map<string, string>)
    ensures IsBlocked(metadata, DefaultFlag) == Err(Failure(BlockIfMessage))
  {
    assert Count(DefaultFlag, ':') == 0;
  }

  /**
   * The set `parsePassthroughMeta` builds: the pieces of the flag between
   * commas, duplicates collapsed. No key holds a comma, and a flag without a
   * comma is its own single key.
   */
  function PassthroughKeys(passThrough: string): (keys: set<string>)
    ensures forall k :: k in keys ==> ',' !in k
    ensures ',' !in passThrough ==> keys == {passThrough}
  {
    assert ',' !in passThrough ==> Split(passThrough, ',') == [passThrough] by {
      if ',' !in passThrough {
        SplitNoSeparator(passThrough, ',');
      }
    }
    SplitShape(passThrough, ',');
    set k | k in Split(passThrough, ',')
  }

  /** `parsePassthroughMeta`: fills the set one piece at a time. */
  method ParsePassthroughMeta(passThrough: string) returns (keys: set<string>)
    ensures keys == PassthroughKeys(passThrough)
  {
    keys := {};
    var metas := Split(passThrough, ',');
    for i := 0 to |metas|
      invariant keys == set j | 0 <= j < i :: metas[j]
    {
      keys := keys + {metas[i]};
    }
    assert forall k :: k in keys <==> k in metas by {
      forall k | k in metas ensures k in keys {
        var j :| 0 <= j < |metas| && metas[j] == k;
      }
    }
  }

  /** A comma-joined list of comma-free keys yields exactly those keys. */
  lemma PassthroughKeysOfList(list: seq<string>)
    requires |list| > 0
    requires forall i :: 0 <= i < |list| ==> ',' !in list[i]
    ensures PassthroughKeys(Join(list, ',')) == set k | k in list
  {
    SplitJoin(list, ',');
  }

  /** The default empty `-pass-through` yields the set holding only the empty key. */
  lemma DefaultPassthroughIsEmptyKey()
    ensures PassthroughKeys(DefaultFlag) == {""}
  {
  }
}
