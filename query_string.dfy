/**
 * The query-string parser (src/http/query_string.rs): `key=value` pairs
 * separated by `&`, collected into a map in which a key seen once holds a
 * single value and a key seen several times holds all its values in order.
 */
module Query {
  import opened Wrappers
  import opened Text

  /** What one key maps to: one value, or every value given to it, in order. */
  datatype Value = Single(value: string) | Multiple(values: seq<string>)

  /** The parsed query: a map from each key to its Value. */
  datatype QueryString = QueryString(data: map<string, Value>)

  /** The values a Value holds, in order. */
  function Values(v: Value): seq<string>
  {
    match v
    case Single(s) => [s]
    case Multiple(vs) => vs
  }

  /**
   * One `&`-separated piece split on its first `=`: the key is what comes
   * before it and the value everything after it (later `=` included); a piece
   * without `=` is all key, with the empty value.
   */
  function KeyValue(piece: string): (string, string)
  {
    match Find(piece, '=')
    case None => (piece, "")
    case Some(i) => (piece[..i], piece[i + 1..])
  }

  /**
   * The key never holds `=`; a piece with `=` is the key, `=` and the value;
   * a piece without `=` is all key, with the empty value.
   */
  lemma KeyValueSplits(piece: string)
    ensures '=' !in KeyValue(piece).0
    ensures '=' in piece ==> piece == KeyValue(piece).0 + "=" + KeyValue(piece).1
    ensures '=' !in piece ==> KeyValue(piece).0 == piece && KeyValue(piece).1 == ""
  {
    match Find(piece, '=')
    case None =>
    case Some(i) =>
      assert piece == piece[..i] + "=" + piece[i + 1..];
  }

  /** A key without `=`, then `=`, then anything: the piece splits back into that key and value. */
  lemma KeyValueOf(piece: string, key: string, val: string)
    requires piece == key + "=" + val && '=' !in key
    ensures KeyValue(piece) == (key, val)
  {
    FindAfter(key, '=', val);
    assert piece[..|key|] == key && piece[|key| + 1..] == val;
  }

  /** The key/value pair of every piece, in order. */
  function Pairs(pieces: seq<string>): seq<(string, string)>
  {
    seq(|pieces|, k requires 0 <= k < |pieces| => KeyValue(pieces[k]))
  }

  /** Every key that occurs in the pairs. */
  function Keys(pairs: seq<(string, string)>): set<string>
  {
    set k | 0 <= k < |pairs| :: pairs[k].0
  }

  /** The values the pairs give to `key`, in the order they occur. */
  function ValuesOf(pairs: seq<(string, string)>, key: string): seq<string>
  {
    if pairs == [] then []
    else (if pairs[0].0 == key then [pairs[0].1] else []) + ValuesOf(pairs[1..], key)
  }

  /** A key has values exactly when some pair names it. */
  lemma {:induction false} ValuesOfKeys(pairs: seq<(string, string)>, key: string)
    ensures |ValuesOf(pairs, key)| > 0 <==> key in Keys(pairs)
  {
    if pairs != [] {
      ValuesOfKeys(pairs[1..], key);
      if key in Keys(pairs) && pairs[0].0 != key {
        var j :| 0 <= j < |pairs| && pairs[j].0 == key;
        assert pairs[1..][j - 1] == pairs[j];
      }
      if key in Keys(pairs[1..]) {
        var j :| 0 <= j < |pairs| - 1 && pairs[1..][j].0 == key;
        assert pairs[j + 1] == pairs[1..][j];
      }
    }
  }

  /** A pair added at the end contributes its value, if it has the key, after all earlier ones. */
  lemma {:induction false} ValuesOfSnoc(pairs: seq<(string, string)>, p: (string, string), key: string)
    ensures ValuesOf(pairs + [p], key) == ValuesOf(pairs, key) + (if p.0 == key then [p.1] else [])
  {
    if pairs != [] {
      assert (pairs + [p])[1..] == pairs[1..] + [p];
      ValuesOfSnoc(pairs[1..], p, key);
    }
  }

  /** The Value for a non-empty list of values: Single for one value, Multiple for more. */
  function Entry(vs: seq<string>): Value
  {
    if |vs| == 1 then Single(vs[0]) else Multiple(vs)
  }

  /**
   * The map the parser is meant to build from a sequence of pairs: every key
   * that occurs, each mapped to the Entry of its values in order.
   */
  function Collect(pairs: seq<(string, string)>): map<string, Value>
  {
    map key | key in Keys(pairs) :: Entry(ValuesOf(pairs, key))
  }

  /** The QueryString that parsing `s` must produce. */
  function QueryOf(s: string): QueryString
  {
    QueryString(Collect(Pairs(Split(s, '&'))))
  }

  /** A key occurs in the pairs with one more pair at the end exactly when it is that pair's key or occurred before. */
  lemma KeysSnoc(pairs: seq<(string, string)>, key: string, val: string)
    ensures Keys(pairs + [(key, val)]) == Keys(pairs) + {key}
  {
    var pairs' := pairs + [(key, val)];
    forall k | k in Keys(pairs') ensures k in Keys(pairs) + {key} {
      var j :| 0 <= j < |pairs'| && pairs'[j].0 == k;
      if j < |pairs| {
        assert pairs[j] == pairs'[j];
      }
    }
    forall k | k in Keys(pairs) ensures k in Keys(pairs') {
      var j :| 0 <= j < |pairs| && pairs[j].0 == k;
      assert pairs'[j] == pairs[j];
    }
    assert pairs'[|pairs|].0 == key;
  }

  /**
   * Adding one pair changes only that pair's key: its values gain the new
   * value at the end, and every other key keeps its entry.
   */
  lemma {:induction false} CollectStep(pairs: seq<(string, string)>, key: string, val: string)
    ensures Collect(pairs + [(key, val)]) == Collect(pairs)[key := Entry(ValuesOf(pairs, key) + [val])]
  {
    var pairs' := pairs + [(key, val)];
    ValuesOfSnoc(pairs, (key, val), key);
    KeysSnoc(pairs, key, val);
    forall k | k in Keys(pairs') && k != key
      ensures Collect(pairs')[k] == Collect(pairs)[k]
    {
      ValuesOfSnoc(pairs, (key, val), k);
    }
  }

  /**
   * What the map says about each key: a key is present exactly when some
   * piece names it, its Value lists that key's values in the order given,
   * and it is Single exactly when the key occurs once.
   */
  lemma {:induction false} CollectEntry(pairs: seq<(string, string)>, key: string)
    ensures key in Collect(pairs) <==> exists k :: 0 <= k < |pairs| && pairs[k].0 == key
    ensures key in Collect(pairs) ==> Values(Collect(pairs)[key]) == ValuesOf(pairs, key)
    ensures key in Collect(pairs) ==> (Collect(pairs)[key].Single? <==> |ValuesOf(pairs, key)| == 1)
    ensures key in Collect(pairs) && Collect(pairs)[key].Multiple? ==> |Collect(pairs)[key].values| >= 2
  {
    ValuesOfKeys(pairs, key);
  }

  /** The pairs of one more piece are the pairs so far with that piece's pair at the end. */
  lemma PairsSnoc(pieces: seq<string>, i: nat)
    requires i < |pieces|
    ensures Pairs(pieces[..i + 1]) == Pairs(pieces[..i]) + [KeyValue(pieces[i])]
  {
  }

  /**
   * The entry a key gets when one more value arrives for it, in terms of the
   * entry it had: Single(prev) becomes Multiple([prev, val]), Multiple(vs)
   * becomes Multiple(vs + [val]), and a new key gets Single(val).
   */
  lemma {:induction false} MergedEntry(pairs: seq<(string, string)>, key: string, val: string)
    ensures var merged, data := Entry(ValuesOf(pairs, key) + [val]), Collect(pairs);
      && (key in data && data[key].Single? ==> merged == Multiple([data[key].value, val]))
      && (key in data && data[key].Multiple? ==> merged == Multiple(data[key].values + [val]))
      && (key !in data ==> merged == Single(val))
  {
    CollectEntry(pairs, key);
    ValuesOfKeys(pairs, key);
    if key !in Collect(pairs) {
      assert ValuesOf(pairs, key) + [val] == [val];
    }
  }

  /**
   * The `entry(key).and_modify(..).or_insert(..)` chain: a new key gets
   * Single(val), Single(prev) becomes Multiple([prev, val]) and Multiple(vs)
   * gets val appended. Entered into the map of some pairs, it gives the map
   * of those pairs followed by (key, val).
   */
  method Enter(data: map<string, Value>, key: string, val: string, ghost pairs: seq<(string, string)>)
    returns (updated: map<string, Value>)
    requires data == Collect(pairs)
    ensures updated == Collect(pairs + [(key, val)])
  {
    CollectStep(pairs, key, val);
    MergedEntry(pairs, key, val);
    if key in data {
      match data[key]
      case Single(prev) =>
        updated := data[key := Multiple([prev, val])];
      case Multiple(vs) =>
        updated := data[key := Multiple(vs + [val])];
    } else {
      updated := data[key := Single(val)];
    }
  }

  /**
   * `QueryString::from`: every piece of the `&`-split input is split on its
   * first `=` and entered into the map. A new key gets `Single(value)`; a key
   * already holding `Single(prev)` becomes `Multiple([prev, value])`; a key
   * holding `Multiple(vs)` gets `value` appended. Parsing never fails.
   */
  method From(s: string) returns (q: QueryString)
    ensures q == QueryOf(s)
  {
    var pieces := Split(s, '&');
    var data: map<string, Value> := map[];
    var i := 0;
    assert Pairs(pieces[..0]) == [] && Keys([]) == {};
    while i < |pieces|
      invariant i <= |pieces|
      invariant data == Collect(Pairs(pieces[..i]))
    {
      var piece := pieces[i];
      var key, val := piece, "";
      var eq := Find(piece, '=');
      if eq.Some? {
        key, val := piece[..eq.value], piece[eq.value + 1..];
      }
      assert (key, val) == KeyValue(piece);
      PairsSnoc(pieces, i);
      data := Enter(data, key, val, Pairs(pieces[..i]));
      i := i + 1;
    }
    assert pieces[..i] == pieces;
    q := QueryString(data);
  }

  /** The pieces of the query string used in the module's own unit test. */
  lemma ExamplePieces()
    ensures Split("a=1&b=2&c&d=&e===&d=7&d=abc", '&') == ["a=1", "b=2", "c", "d=", "e===", "d=7", "d=abc"]
  {
    var pieces := ["a=1", "b=2", "c", "d=", "e===", "d=7", "d=abc"];
    assert Join(["d=abc"], '&') == "d=abc";
    JoinCons("d=7", ["d=abc"], '&');
    JoinCons("e===", ["d=7", "d=abc"], '&');
    JoinCons("d=", ["e===", "d=7", "d=abc"], '&');
    JoinCons("c", ["d=", "e===", "d=7", "d=abc"], '&');
    JoinCons("b=2", ["c", "d=", "e===", "d=7", "d=abc"], '&');
    JoinCons("a=1", ["b=2", "c", "d=", "e===", "d=7", "d=abc"], '&');
    ExampleText();
    SplitJoin(pieces, '&');
  }

  lemma ExampleText()
    ensures "a=1&b=2&c&d=&e===&d=7&d=abc"
      == "a=1" + "&" + ("b=2" + "&" + ("c" + "&" + ("d=" + "&" + ("e===" + "&" + ("d=7" + "&" + "d=abc")))))
  {
  }

  /** How each of those pieces splits on its first `=`. */
  lemma ExampleKeyValues()
    ensures KeyValue("a=1") == ("a", "1") && KeyValue("b=2") == ("b", "2") && KeyValue("c") == ("c", "")
    ensures KeyValue("d=") == ("d", "") && KeyValue("e===") == ("e", "==")
    ensures KeyValue("d=7") == ("d", "7") && KeyValue("d=abc") == ("d", "abc")
  {
    ExampleFirstKeyValues();
    ExampleLastKeyValues();
  }

  lemma ExampleFirstKeyValues()
    ensures KeyValue("a=1") == ("a", "1") && KeyValue("b=2") == ("b", "2") && KeyValue("d=") == ("d", "")
  {
    KeyValueOf("a=1", "a", "1");
    KeyValueOf("b=2", "b", "2");
    KeyValueOf("d=", "d", "");
  }

  lemma ExampleLastKeyValues()
    ensures KeyValue("e===") == ("e", "==") && KeyValue("d=7") == ("d", "7") && KeyValue("d=abc") == ("d", "abc")
  {
    KeyValueOf("e===", "e", "==");
    KeyValueOf("d=7", "d", "7");
    KeyValueOf("d=abc", "d", "abc");
  }

  /** The key/value pairs of those pieces. */
  lemma ExamplePairs()
    ensures Pairs(["a=1", "b=2", "c", "d=", "e===", "d=7", "d=abc"])
      == [("a", "1"), ("b", "2"), ("c", ""), ("d", ""), ("e", "=="), ("d", "7"), ("d", "abc")]
  {
    PairsOfSeven("a=1", "b=2", "c", "d=", "e===", "d=7", "d=abc");
    ExampleKeyValues();
  }

  /** The pairs of seven pieces, one per piece. */
  lemma PairsOfSeven(p0: string, p1: string, p2: string, p3: string, p4: string, p5: string, p6: string)
    ensures Pairs([p0, p1, p2, p3, p4, p5, p6])
      == [KeyValue(p0), KeyValue(p1), KeyValue(p2), KeyValue(p3), KeyValue(p4), KeyValue(p5), KeyValue(p6)]
  {
  }

  /** The keys of those pairs. */
  lemma ExampleKeys()
    ensures Keys([("a", "1"), ("b", "2"), ("c", ""), ("d", ""), ("e", "=="), ("d", "7"), ("d", "abc")])
      == {"a", "b", "c", "d", "e"}
  {
    var pairs := [("a", "1"), ("b", "2"), ("c", ""), ("d", ""), ("e", "=="), ("d", "7"), ("d", "abc")];
    assert pairs[0].0 == "a" && pairs[1].0 == "b" && pairs[2].0 == "c" && pairs[3].0 == "d" && pairs[4].0 == "e";
  }

  /** The values each key of those pairs collects. */
  lemma ExampleValues()
    ensures var pairs := [("a", "1"), ("b", "2"), ("c", ""), ("d", ""), ("e", "=="), ("d", "7"), ("d", "abc")];
      && ValuesOf(pairs, "a") == ["1"] && ValuesOf(pairs, "b") == ["2"] && ValuesOf(pairs, "c") == [""]
      && ValuesOf(pairs, "d") == ["", "7", "abc"] && ValuesOf(pairs, "e") == ["=="]
  {
    var pairs := [("a", "1"), ("b", "2"), ("c", ""), ("d", ""), ("e", "=="), ("d", "7"), ("d", "abc")];
    var tail := [("d", ""), ("e", "=="), ("d", "7"), ("d", "abc")];
    assert pairs[3..] == tail;
    ExampleTailValues();
  }

  lemma ExampleTailValues()
    ensures var tail := [("d", ""), ("e", "=="), ("d", "7"), ("d", "abc")];
      && ValuesOf(tail, "a") == [] && ValuesOf(tail, "b") == [] && ValuesOf(tail, "c") == []
      && ValuesOf(tail, "d") == ["", "7", "abc"] && ValuesOf(tail, "e") == ["=="]
  {
    ExampleTailAbsent();
    ExampleTailPresent();
  }

  lemma ExampleTailAbsent()
    ensures var tail := [("d", ""), ("e", "=="), ("d", "7"), ("d", "abc")];
      ValuesOf(tail, "a") == [] && ValuesOf(tail, "b") == [] && ValuesOf(tail, "c") == []
  {
  }

  lemma ExampleTailPresent()
    ensures var tail := [("d", ""), ("e", "=="), ("d", "7"), ("d", "abc")];
      ValuesOf(tail, "d") == ["", "7", "abc"] && ValuesOf(tail, "e") == ["=="]
  {
  }

  /**
   * The unit test of the query-string parser: `a=1&b=2&c&d=&e===&d=7&d=abc`
   * gives a, b, c and e a single value each (`c` has no `=`, `e===` keeps the
   * two later `=` in its value) and gives d its three values in order.
   */
  lemma Example()
    ensures var data := QueryOf("a=1&b=2&c&d=&e===&d=7&d=abc").data;
      && data.Keys == {"a", "b", "c", "d", "e"}
      && data["a"] == Single("1") && data["b"] == Single("2") && data["c"] == Single("")
      && data["e"] == Single("==") && data["d"] == Multiple(["", "7", "abc"])
  {
    ExamplePieces();
    ExamplePairs();
    ExampleCollect();
  }

  lemma ExampleCollect()
    ensures var data := Collect([("a", "1"), ("b", "2"), ("c", ""), ("d", ""), ("e", "=="), ("d", "7"), ("d", "abc")]);
      && data.Keys == {"a", "b", "c", "d", "e"}
      && data["a"] == Single("1") && data["b"] == Single("2") && data["c"] == Single("")
      && data["e"] == Single("==") && data["d"] == Multiple(["", "7", "abc"])
  {
    ExampleKeys();
    ExampleValues();
  }

  /** An empty query string is one empty piece: the key "" with the single value "". */
  lemma EmptyQuery()
    ensures QueryOf("").data.Keys == {""}
    ensures QueryOf("").data[""] == Single("")
  {
    assert Split("", '&') == [""];
    assert Pairs([""]) == [("", "")];
    var pairs := [("", "")];
    assert Keys(pairs) == {""} by {
      assert pairs[0].0 == "";
    }
    assert ValuesOf(pairs, "") == [""] by {
      assert pairs[1..] == [];
    }
  }
}
