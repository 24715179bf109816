/**
 * The snapshot registry: one leaderboard table per `(date, part)` key, filled
 * once from the parsed file list (a later file replaces an earlier one with
 * the same key) and only read afterwards.
 */
module Registry {
  import opened Calendar
  import opened FileNames

  /** A leaderboard row. The category columns only feed the chart and are left out. */
  datatype Row = Row(name: string, total: int)

  type Snapshot = seq<Row>

  /** A registry key: the day ordinal of the file's date and its part. */
  datatype Key = Key(date: int, part: int)

  function KeyOf(info: FileInfo): Key
    requires IsValid(info.date)
  {
    Key(Ordinal(info.date), info.part)
  }

  /** No later file in `infos` has the same key as `infos[i]`. */
  predicate LastWithKey(infos: seq<FileInfo>, i: nat)
    requires i < |infos|
    requires forall j :: 0 <= j < |infos| ==> IsValid(infos[j].date)
  {
    forall j :: i < j < |infos| ==> KeyOf(infos[j]) != KeyOf(infos[i])
  }

  /**
   * The loop at lines 36-42. `load` stands for reading a file's table;
   * the registry holds every file's key, each bound to the table of the
   * last file that has that key.
   */
  method BuildRegistry(infos: seq<FileInfo>, load: string -> Snapshot) returns (reg: map<Key, Snapshot>)
    requires forall i :: 0 <= i < |infos| ==> IsValid(infos[i].date)
    ensures reg.Keys == set i | 0 <= i < |infos| :: KeyOf(infos[i])
    ensures forall i :: 0 <= i < |infos| && LastWithKey(infos, i) ==> reg[KeyOf(infos[i])] == load(infos[i].path)
  {
    reg := map[];
    for n := 0 to |infos|
      invariant reg.Keys == set i | 0 <= i < n :: KeyOf(infos[i])
      invariant forall i :: 0 <= i < n && (forall j :: i < j < n ==> KeyOf(infos[j]) != KeyOf(infos[i]))
                  ==> reg[KeyOf(infos[i])] == load(infos[i].path)
    {
      var info := infos[n];
      reg := reg[KeyOf(info) := load(info.path)];
    }
  }

  /** Python's order on `(date, part)` tuples, on ordinals. */
  predicate KeyLe(a: Key, b: Key) {
    a.date < b.date || (a.date == b.date && a.part <= b.part)
  }

  /** A finite set of keys has a greatest key. */
  lemma {:induction false} GreatestKeyExists(keys: set<Key>)
    requires keys != {}
    ensures exists k :: k in keys && forall k' :: k' in keys ==> KeyLe(k', k)
    decreases |keys|
  {
    var x :| x in keys;
    var rest := keys - {x};
    assert keys == rest + {x};
    if rest == {} {
      assert keys == {x};
    } else {
      GreatestKeyExists(rest);
      var m :| m in rest && forall k' :: k' in rest ==> KeyLe(k', m);
      var top := if KeyLe(x, m) then m else x;
      forall k' | k' in keys
        ensures KeyLe(k', top)
      {
        if k' in rest {
          assert KeyLe(k', m);
        }
      }
      assert top in keys;
    }
  }

  /** `max(keys)` on `(date, part)` tuples. */
  function Greatest(keys: set<Key>): (k: Key)
    requires keys != {}
    ensures k in keys && forall k' :: k' in keys ==> KeyLe(k', k)
  {
    GreatestKeyExists(keys);
    var k :| k in keys && forall k' :: k' in keys ==> KeyLe(k', k);
    k
  }
}
