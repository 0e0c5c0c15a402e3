/**
 * Message headers as the Gmail payload lists them. A missing `name` or
 * `value` entry reads as the empty string (`header.get('name', '')`).
 */
module Mail {
  import opened Wrappers
  import opened Text

  datatype Header = Header(name: string, value: string)

  /** The value of the last header whose lower-cased name is `key`. */
  function LastValue(hs: seq<Header>, key: string): (r: Option<string>)
    ensures r.Some? <==> exists i :: 0 <= i < |hs| && Lower(hs[i].name) == key
    ensures r.Some? ==> exists i :: 0 <= i < |hs| && Lower(hs[i].name) == key && hs[i].value == r.value
                                    && forall j :: i < j < |hs| ==> Lower(hs[j].name) != key
    decreases |hs|
  {
    if hs == [] then None
    else
      var init, last := hs[..|hs| - 1], hs[|hs| - 1];
      assert forall i :: 0 <= i < |init| ==> init[i] == hs[i];
      if Lower(last.name) == key then Some(last.value)
      else
        var r := LastValue(init, key);
        assert r.Some? ==> exists i :: 0 <= i < |hs| && Lower(hs[i].name) == key && hs[i].value == r.value
                                    && forall j :: i < j < |hs| ==> Lower(hs[j].name) != key by {
          if r.Some? {
            var i :| 0 <= i < |init| && Lower(init[i].name) == key && init[i].value == r.value
                     && forall j :: i < j < |init| ==> Lower(init[j].name) != key;
            assert forall j :: i < j < |hs| ==> Lower(hs[j].name) != key by {
              forall j | i < j < |hs| ensures Lower(hs[j].name) != key {
                if j < |init| { assert hs[j] == init[j]; }
              }
            }
          }
        }
        r
  }

  /** Extending the header list by one: the new header wins for its own name and nothing else moves. */
  lemma {:induction false} LastValueSnoc(hs: seq<Header>, h: Header, key: string)
    ensures LastValue(hs + [h], key) == if Lower(h.name) == key then Some(h.value) else LastValue(hs, key)
  {
    assert (hs + [h])[..|hs|] == hs;
  }

  /** The same step stated on prefixes of one header list. */
  lemma LastValuePrefix(hs: seq<Header>, i: nat, key: string)
    requires i < |hs|
    ensures LastValue(hs[..i + 1], key) == if Lower(hs[i].name) == key then Some(hs[i].value) else LastValue(hs[..i], key)
  {
    assert hs[..i + 1] == hs[..i] + [hs[i]];
    LastValueSnoc(hs[..i], hs[i], key);
  }
}
