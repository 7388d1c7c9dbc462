/**
 Finding a client by its public key: the server's index, in which a later client replaces an
 earlier one (`cmd/jiejie-masque/main.go`), and the search for the client whose configuration is
 printed, which stops at the first (`cmd/jiejie-masque/mihomo_config.go`).
 */
module ClientIndex {
  import opened Common
  import opened Config

  function LastWith(clients: seq<ResolvedClient>, key: string): Option<ResolvedClient> {
    if clients == [] then None
    else if clients[|clients| - 1].publicKey == key then Some(clients[|clients| - 1])
    else LastWith(clients[..|clients| - 1], key)
  }

  function FirstWith(clients: seq<ResolvedClient>, key: string): Option<ResolvedClient> {
    if clients == [] then None
    else if clients[0].publicKey == key then Some(clients[0])
    else FirstWith(clients[1..], key)
  }

  /** The index finds what the last client with the key is. */
  ghost predicate Indexes(byKey: map<string, ResolvedClient>, clients: seq<ResolvedClient>) {
    forall key :: (if key in byKey then Some(byKey[key]) else None) == LastWith(clients, key)
  }

  method BuildIndex(clients: seq<ResolvedClient>) returns (byKey: map<string, ResolvedClient>)
    ensures Indexes(byKey, clients)
    ensures forall key :: key in byKey <==> exists i :: 0 <= i < |clients| && clients[i].publicKey == key
    ensures forall key :: key in byKey ==>
              exists i :: && 0 <= i < |clients| && clients[i].publicKey == key && byKey[key] == clients[i]
                          && forall j :: i < j < |clients| ==> clients[j].publicKey != key
  {
    byKey := map[];
    for i := 0 to |clients|
      invariant Indexes(byKey, clients[..i])
    {
      assert clients[..i + 1][..i] == clients[..i];
      byKey := byKey[clients[i].publicKey := clients[i]];
    }
    assert clients[..|clients|] == clients;
    forall key { LastExactly(clients, key); }
  }

  lemma {:induction false} LastExactly(clients: seq<ResolvedClient>, key: string)
    ensures LastWith(clients, key).Some? <==> exists i :: 0 <= i < |clients| && clients[i].publicKey == key
    ensures LastWith(clients, key).Some? ==>
              exists i :: && 0 <= i < |clients| && clients[i].publicKey == key
                          && LastWith(clients, key) == Some(clients[i])
                          && forall j :: i < j < |clients| ==> clients[j].publicKey != key
    decreases |clients|
  {
    if clients != [] {
      var front, last := clients[..|clients| - 1], clients[|clients| - 1];
      LastExactly(front, key);
      assert forall i :: 0 <= i < |front| ==> front[i] == clients[i];
    }
  }

  lemma {:induction false} FirstExactly(clients: seq<ResolvedClient>, key: string)
    ensures FirstWith(clients, key).Some? <==> exists i :: 0 <= i < |clients| && clients[i].publicKey == key
    ensures FirstWith(clients, key).Some? ==>
              exists i :: && 0 <= i < |clients| && clients[i].publicKey == key
                          && FirstWith(clients, key) == Some(clients[i])
                          && forall j :: 0 <= j < i ==> clients[j].publicKey != key
    decreases |clients|
  {
    if clients != [] {
      FirstExactly(clients[1..], key);
      assert forall i :: 0 < i < |clients| ==> clients[i] == clients[1..][i - 1];
      if clients[0].publicKey != key && FirstWith(clients, key).Some? {
        var i :| && 0 <= i < |clients| - 1 && clients[1..][i].publicKey == key
                 && FirstWith(clients, key) == Some(clients[1..][i])
                 && forall j :: 0 <= j < i ==> clients[1..][j].publicKey != key;
        assert clients[i + 1] == clients[1..][i];
        assert forall j :: 0 < j < i + 1 ==> clients[j] == clients[1..][j - 1];
      }
    }
  }

  method SelectMihomoClient(clients: seq<ResolvedClient>, publicKey: string) returns (r: Option<ResolvedClient>)
    ensures r == FirstWith(clients, publicKey)
    ensures r.Some? <==> exists i :: 0 <= i < |clients| && clients[i].publicKey == publicKey
    ensures r.Some? ==>
              exists i :: && 0 <= i < |clients| && clients[i].publicKey == publicKey && r.value == clients[i]
                          && forall j :: 0 <= j < i ==> clients[j].publicKey != publicKey
  {
    FirstExactly(clients, publicKey);
    for i := 0 to |clients|
      invariant FirstWith(clients, publicKey) == FirstWith(clients[i..], publicKey)
    {
      assert clients[i..][0] == clients[i] && clients[i..][1..] == clients[i + 1..];
      if clients[i].publicKey == publicKey { return Some(clients[i]); }
    }
    return None;
  }

  lemma {:induction false} FirstIsTheClient(clients: seq<ResolvedClient>, k: nat)
    requires PairwiseDistinct(clients) && k < |clients|
    ensures FirstWith(clients, clients[k].publicKey) == Some(clients[k])
    decreases |clients|
  {
    if k > 0 {
      assert clients[0].publicKey != clients[k].publicKey;
      assert clients[1..][k - 1] == clients[k];
      FirstIsTheClient(clients[1..], k - 1);
    }
  }

  lemma {:induction false} LastIsTheClient(clients: seq<ResolvedClient>, k: nat)
    requires PairwiseDistinct(clients) && k < |clients|
    ensures LastWith(clients, clients[k].publicKey) == Some(clients[k])
    decreases |clients|
  {
    if k < |clients| - 1 {
      assert clients[|clients| - 1].publicKey != clients[k].publicKey;
      LastIsTheClient(clients[..|clients| - 1], k);
    }
  }

  lemma {:induction false} NoneWithoutTheKey(clients: seq<ResolvedClient>, key: string)
    ensures FirstWith(clients, key).None? <==> forall k :: 0 <= k < |clients| ==> clients[k].publicKey != key
    ensures LastWith(clients, key).None? <==> forall k :: 0 <= k < |clients| ==> clients[k].publicKey != key
    decreases |clients|
  {
    if clients != [] {
      NoneWithoutTheKey(clients[1..], key);
      NoneWithoutTheKey(clients[..|clients| - 1], key);
      assert forall k :: 0 < k < |clients| ==> clients[k] == clients[1..][k - 1];
    }
  }

  /** On every accepted client list the index and the search agree on every key, and find each client by its own. */
  lemma IndexAndSearchAgree(clients: seq<ResolvedClient>, key: string)
    requires PairwiseDistinct(clients)
    ensures LastWith(clients, key) == FirstWith(clients, key)
    ensures forall k :: 0 <= k < |clients| ==> FirstWith(clients, clients[k].publicKey) == Some(clients[k])
  {
    NoneWithoutTheKey(clients, key);
    if k :| 0 <= k < |clients| && clients[k].publicKey == key {
      FirstIsTheClient(clients, k);
      LastIsTheClient(clients, k);
    }
    forall k | 0 <= k < |clients| ensures FirstWith(clients, clients[k].publicKey) == Some(clients[k]) {
      FirstIsTheClient(clients, k);
    }
  }
}
