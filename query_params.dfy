/** `getParamsToObject` (background.js:11): a query string to an object, by
    `Object.fromEntries(string.split("&").map(kv => kv.split("=")))`. */
module QueryParams {
  import opened Wrappers
  import opened Text

  /** The object built: a property per key; a pair without '=' gives the key
      the value `undefined`, written None. */
  type Params = map<string, Option<string>>

  /** The value of one entry array: its element 1, or `undefined` when it has
      only one element. Elements after index 1 are ignored. */
  function EntryValue(entry: seq<string>): Option<string>
  {
    if |entry| >= 2 then Some(entry[1]) else None
  }

  /** `Object.fromEntries(entries)`: keys are taken in order, so a later entry
      with the same key overwrites an earlier one. */
  function FromEntries(entries: seq<seq<string>>): Params
    requires forall i :: 0 <= i < |entries| ==> |entries[i]| >= 1
  {
    if entries == [] then map[]
    else
      var last := entries[|entries| - 1];
      FromEntries(entries[..|entries| - 1])[last[0] := EntryValue(last)]
  }

  /** The keys of the entries. */
  function EntryKeys(entries: seq<seq<string>>): set<string>
    requires forall i :: 0 <= i < |entries| ==> |entries[i]| >= 1
  {
    set i | 0 <= i < |entries| :: entries[i][0]
  }

  /** The object has a key exactly when some entry starts with it ... */
  lemma {:induction false} FromEntriesKeys(entries: seq<seq<string>>)
    requires forall i :: 0 <= i < |entries| ==> |entries[i]| >= 1
    ensures FromEntries(entries).Keys == EntryKeys(entries)
    decreases |entries|
  {
    if entries != [] {
      var n := |entries| - 1;
      var init := entries[..n];
      FromEntriesKeys(init);
      assert EntryKeys(entries) == EntryKeys(init) + {entries[n][0]} by {
        forall k | k in EntryKeys(entries) ensures k in EntryKeys(init) + {entries[n][0]} {
          var i :| 0 <= i < |entries| && entries[i][0] == k;
          if i < n { assert init[i] == entries[i]; }
        }
        forall k | k in EntryKeys(init) ensures k in EntryKeys(entries) {
          var i :| 0 <= i < |init| && init[i][0] == k;
          assert init[i] == entries[i];
        }
      }
    }
  }

  /** ... and that key holds the value of the last entry that starts with it. */
  lemma {:induction false} FromEntriesLastWins(entries: seq<seq<string>>, i: nat)
    requires forall j :: 0 <= j < |entries| ==> |entries[j]| >= 1
    requires i < |entries| && LastWithKey(entries, i)
    ensures entries[i][0] in FromEntries(entries)
    ensures FromEntries(entries)[entries[i][0]] == EntryValue(entries[i])
    decreases |entries|
  {
    var n := |entries| - 1;
    if i < n {
      var init := entries[..n];
      assert entries[n][0] != entries[i][0];
      assert init[i] == entries[i];
      assert LastWithKey(init, i) by {
        forall j | i < j < |init| ensures init[j][0] != init[i][0] {
          assert init[j] == entries[j];
        }
      }
      FromEntriesLastWins(init, i);
    }
  }

  /** Entry i is the last one whose key is its key. */
  predicate LastWithKey(entries: seq<seq<string>>, i: nat)
    requires i < |entries|
    requires forall j :: 0 <= j < |entries| ==> |entries[j]| >= 1
  {
    forall j :: i < j < |entries| ==> entries[j][0] != entries[i][0]
  }

  /** The pairs of a query string, each split on '='. */
  function Entries(query: string): seq<seq<string>>
  {
    var pairs := Split(query, '&');
    seq(|pairs|, i requires 0 <= i < |pairs| => Split(pairs[i], '='))
  }

  function GetParamsToObject(query: string): Params
  {
    FromEntries(Entries(query))
  }

  /** A key is present exactly when some '&'-separated pair starts with it
      (up to its first '='), and it takes the value of the LAST such pair: the
      text between its first and second '=', or `undefined` without '='. */
  lemma ParamsLastWins(query: string, key: string)
    ensures key in GetParamsToObject(query) <==> HasPairWithKey(Split(query, '&'), key)
    ensures var pairs := Split(query, '&');
      forall i :: 0 <= i < |pairs| && Split(pairs[i], '=')[0] == key && LastPairWithKey(pairs, i, key) ==>
        GetParamsToObject(query)[key] == EntryValue(Split(pairs[i], '='))
  {
    var pairs := Split(query, '&');
    var es := Entries(query);
    FromEntriesKeys(es);
    if key in GetParamsToObject(query) {
      assert key in EntryKeys(es);
      var i :| 0 <= i < |es| && es[i][0] == key;
      assert Split(pairs[i], '=')[0] == key;
    }
    if HasPairWithKey(pairs, key) {
      var i :| 0 <= i < |pairs| && Split(pairs[i], '=')[0] == key;
      assert es[i][0] == key;
      assert key in EntryKeys(es);
    }
    assert GetParamsToObject(query) == FromEntries(es);
    forall i | 0 <= i < |pairs| && Split(pairs[i], '=')[0] == key && LastPairWithKey(pairs, i, key)
      ensures GetParamsToObject(query)[key] == EntryValue(Split(pairs[i], '='))
    {
      assert es[i][0] == key;
      assert LastWithKey(es, i) by {
        forall j | i < j < |es| ensures es[j][0] != es[i][0] {
          assert es[j] == Split(pairs[j], '=');
        }
      }
      FromEntriesLastWins(es, i);
    }
  }

  /** Some pair starts with the key. */
  predicate HasPairWithKey(pairs: seq<string>, key: string)
  {
    exists i :: 0 <= i < |pairs| && Split(pairs[i], '=')[0] == key
  }

  /** No pair after pair i starts with the key. */
  predicate LastPairWithKey(pairs: seq<string>, i: nat, key: string)
  {
    forall j :: i < j < |pairs| ==> Split(pairs[j], '=')[0] != key
  }

  /** The value a pair gives its key is exactly what follows its first '=' up
      to the next '=' (or the end). */
  lemma EntryValueOfPair(key: string, value: string, rest: string)
    requires '=' !in key && '=' !in value
    ensures Split(key + "=" + value + rest, '=')[0] == key
    ensures rest == [] || rest[0] == '=' ==>
      EntryValue(Split(key + "=" + value + rest, '=')) == Some(value)
  {
    SplitAfterPiece(key, value + rest, '=');
    assert key + "=" + value + rest == key + ['='] + (value + rest);
    if rest == [] {
      SplitWithoutSeparator(value, '=');
      assert value + rest == value;
    } else if rest[0] == '=' {
      SplitAfterPiece(value, rest[1..], '=');
      assert value + rest == value + ['='] + rest[1..];
    }
  }

  /** A query that opens with the pair `key=value` (neither holding '&' or '=')
      gives the key that value, unless a later pair starts with the same key. */
  lemma {:induction false} FirstPairValue(key: string, value: string, rest: string)
    requires '&' !in key && '=' !in key && '&' !in value && '=' !in value
    requires !HasPairWithKey(Split(rest, '&'), key)
    ensures var params := GetParamsToObject(key + "=" + value + "&" + rest);
      key in params && params[key] == Some(value)
  {
    var first := key + "=" + value;
    var query := first + "&" + rest;
    assert query == first + ['&'] + rest;
    assert first == key + ['='] + value;
    SplitConcat(first, rest, '&');
    SplitWithoutSeparator(first, '&');
    SplitAfterPiece(key, value, '=');
    SplitWithoutSeparator(value, '=');
    var pairs := Split(query, '&');
    assert pairs == [first] + Split(rest, '&');
    assert Split(pairs[0], '=') == [key, value];
    assert LastPairWithKey(pairs, 0, key) by {
      forall j | 0 < j < |pairs| ensures Split(pairs[j], '=')[0] != key {
        assert pairs[j] == Split(rest, '&')[j - 1];
      }
    }
    ParamsLastWins(query, key);
  }
}
