/** The query-string splitter of the HTTP layer: `key1=val1&key2=val2` into a
    map, with no decoding and no trimming. */
module Query {
  import opened Models
  import opened Text

  /** The key and value of a piece that splits on '=' into exactly two parts;
      nothing for any other piece. */
  function KeyValue(piece: string): (r: Option<(string, string)>)
    ensures r.Some? <==> |Split(piece, '=')| == 2
    ensures r.Some? ==> '=' !in r.value.0 && '=' !in r.value.1
  {
    var parts := Split(piece, '=');
    if |parts| == 2 then Some((parts[0], parts[1])) else None
  }

  /** The map the pieces give when they are put in order: a later piece with
      the same key overwrites an earlier one. */
  function Collect(pieces: seq<string>): map<string, string>
    decreases |pieces|
  {
    if pieces == [] then map[]
    else
      var kv := KeyValue(pieces[|pieces| - 1]);
      var m := Collect(pieces[..|pieces| - 1]);
      if kv.Some? then m[kv.value.0 := kv.value.1] else m
  }

  /** Piece `i` is kept and has key `k`. */
  predicate KeptWithKey(pieces: seq<string>, i: int, k: string)
    requires 0 <= i < |pieces|
  {
    KeyValue(pieces[i]).Some? && KeyValue(pieces[i]).value.0 == k
  }

  /** Putting one more piece at the end. */
  lemma CollectSnoc(init: seq<string>, piece: string)
    ensures Collect(init + [piece]) ==
      if KeyValue(piece).Some? then Collect(init)[KeyValue(piece).value.0 := KeyValue(piece).value.1]
      else Collect(init)
  {
    assert (init + [piece])[..|init|] == init;
  }

  /** A key is in the map exactly when some kept piece has it, and its value
      is the one of the last such piece. */
  lemma {:induction false} CollectLastWins(pieces: seq<string>, k: string)
    ensures k in Collect(pieces) <==> exists i :: 0 <= i < |pieces| && KeptWithKey(pieces, i, k)
    ensures k in Collect(pieces) ==>
      exists i :: && 0 <= i < |pieces| && KeptWithKey(pieces, i, k)
                  && Collect(pieces)[k] == KeyValue(pieces[i]).value.1
                  && forall j :: i < j < |pieces| ==> !KeptWithKey(pieces, j, k)
    decreases |pieces|
  {
    if pieces != [] {
      var n := |pieces| - 1;
      var init := pieces[..n];
      assert pieces == init + [pieces[n]];
      CollectSnoc(init, pieces[n]);
      CollectLastWins(init, k);
      assert forall i :: 0 <= i < n ==> KeptWithKey(init, i, k) == KeptWithKey(pieces, i, k);
      if !KeptWithKey(pieces, n, k) {
        assert k in Collect(pieces) <==> k in Collect(init);
        if k in Collect(pieces) {
          assert Collect(pieces)[k] == Collect(init)[k];
          var i :| && 0 <= i < n && KeptWithKey(init, i, k)
                   && Collect(init)[k] == KeyValue(init[i]).value.1
                   && forall j :: i < j < n ==> !KeptWithKey(init, j, k);
          assert KeptWithKey(pieces, i, k);
        }
      }
    }
  }

  /** `parseQuery`: an absent query gives an empty map; otherwise the query is
      split on '&' and every piece that splits on '=' into exactly two parts
      is put into the map, in order. */
  method ParseQuery(query: Option<string>) returns (params: map<string, string>)
    ensures query.None? ==> params == map[]
    ensures query.Some? ==> params == Collect(Split(query.value, '&'))
  {
    params := map[];
    if query.Some? {
      var pairs := Split(query.value, '&');
      for i := 0 to |pairs|
        invariant params == Collect(pairs[..i])
      {
        assert pairs[..i + 1][..i] == pairs[..i];
        var keyValue := Split(pairs[i], '=');
        if |keyValue| == 2 {
          params := params[keyValue[0] := keyValue[1]];
        }
      }
      assert pairs[..|pairs|] == pairs;
    }
  }

  /** A key and a value without '=' joined by one '=' split back into the
      two. */
  lemma FieldsOfPair(key: string, value: string)
    requires '=' !in key && '=' !in value
    ensures Fields(key + "=" + value, '=') == [key, value]
  {
    FieldsAfterPlain(key, '=', value);
    FieldsOfPlain(value, '=');
  }

  /** A key and a non-empty value without '=' written as `key=value` come
      back unchanged: `=v` is kept under the empty key. */
  lemma KeyValueRoundTrip(key: string, value: string)
    requires '=' !in key && '=' !in value && value != ""
    ensures KeyValue(key + "=" + value) == Some((key, value))
  {
    FieldsOfPair(key, value);
    assert (key + "=" + value)[|key|] == '=';
  }

  /** A piece without '=' is dropped. */
  lemma DroppedWithoutSeparator(piece: string)
    requires '=' !in piece
    ensures KeyValue(piece) == None
  {
  }

  /** A key followed by a bare '=' is dropped: Java's `split` removes the
      trailing empty value, leaving one part. */
  lemma DroppedWithoutValue(key: string)
    requires '=' !in key
    ensures KeyValue(key + "=") == None
  {
    FieldsOfPair(key, "");
    assert key + "=" + "" == key + "=";
    assert (key + "=")[|key|] == '=';
    assert DropTrailingEmpty([key, ""]) == DropTrailingEmpty([key]);
  }

  /** `a=b=c` has three parts and is dropped. */
  lemma DroppedWithThreeParts(a: string, b: string, c: string)
    requires '=' !in a && '=' !in b && '=' !in c && c != ""
    ensures KeyValue(a + "=" + b + "=" + c) == None
  {
    FieldsOfPair(b, c);
    FieldsAfterPlain(a, '=', b + "=" + c);
    assert a + "=" + b + "=" + c == a + "=" + (b + "=" + c);
    assert (a + "=" + b + "=" + c)[|a|] == '=';
  }

  /** `a=b=` loses its trailing empty part and is kept as (a, b). */
  lemma TrailingSeparatorIgnored(a: string, b: string)
    requires '=' !in a && '=' !in b && b != ""
    ensures KeyValue(a + "=" + b + "=") == Some((a, b))
  {
    FieldsOfPair(b, "");
    FieldsAfterPlain(a, '=', b + "=");
    assert b + "=" + "" == b + "=";
    assert a + "=" + b + "=" == a + "=" + (b + "=");
    assert (a + "=" + b + "=")[|a|] == '=';
    assert Fields(a + "=" + b + "=", '=') == [a, b, ""];
    assert DropTrailingEmpty([a, b, ""]) == DropTrailingEmpty([a, b]) == [a, b];
  }
}
