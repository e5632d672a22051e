/** The provider table and the reverse index built from it when the package
    is imported (mxsniffer/__init__.py:18-22). */
module Registry {
  import opened Text

  /** One entry of the provider table: a provider name and its mail-exchange
      hostnames. The table is a sequence so that its iteration order is part
      of the model. */
  type Provider = (string, seq<string>)

  /** The entry `p` lists a hostname whose lowercase form is `key`. */
  predicate Lists(p: Provider, key: string)
  {
    exists j :: 0 <= j < |p.1| && Lower(p.1[j]) == key
  }

  /** The inner loop over one provider's hostnames, as a fold from the left. */
  function AddHosts(m: map<string, string>, name: string, hosts: seq<string>): map<string, string>
  {
    if hosts == [] then m
    else AddHosts(m, name, hosts[..|hosts| - 1])[Lower(hosts[|hosts| - 1]) := name]
  }

  /** The dictionary `provider_domains` after the outer loop has run over
      all of `providers`. */
  function ReverseIndex(providers: seq<Provider>): map<string, string>
  {
    if providers == [] then map[]
    else
      var last := providers[|providers| - 1];
      AddHosts(ReverseIndex(providers[..|providers| - 1]), last.0, last.1)
  }

  /** The nested loop of the source, filling the dictionary in place. */
  method BuildReverseIndex(providers: seq<Provider>) returns (index: map<string, string>)
    ensures index == ReverseIndex(providers)
  {
    index := map[];
    var i := 0;
    while i < |providers|
      invariant 0 <= i <= |providers|
      invariant index == ReverseIndex(providers[..i])
    {
      var (name, hosts) := providers[i];
      ghost var before := index;
      var j := 0;
      while j < |hosts|
        invariant 0 <= j <= |hosts|
        invariant index == AddHosts(before, name, hosts[..j])
      {
        assert hosts[..j + 1][..j] == hosts[..j];
        index := index[Lower(hosts[j]) := name];
        j := j + 1;
      }
      assert hosts[..j] == hosts;
      assert providers[..i + 1][..i] == providers[..i];
      i := i + 1;
    }
    assert providers[..i] == providers;
  }

  /** What one run of the inner loop does to the dictionary: the keys of
      `hosts` (lowercased) now map to `name`, everything else is as before. */
  lemma {:induction false} AddHostsEffect(m: map<string, string>, name: string, hosts: seq<string>, key: string)
    ensures key in AddHosts(m, name, hosts) <==> key in m || Lists((name, hosts), key)
    ensures Lists((name, hosts), key) ==> AddHosts(m, name, hosts)[key] == name
    ensures !Lists((name, hosts), key) && key in m ==> AddHosts(m, name, hosts)[key] == m[key]
  {
    if hosts != [] {
      var init := hosts[..|hosts| - 1];
      AddHostsEffect(m, name, init, key);
      if Lists((name, init), key) {
        var j :| 0 <= j < |init| && Lower(init[j]) == key;
        assert hosts[j] == init[j];
      }
      if Lists((name, hosts), key) && Lower(hosts[|hosts| - 1]) != key {
        var j :| 0 <= j < |hosts| && Lower(hosts[j]) == key;
        assert init[j] == hosts[j];
      }
    }
  }

  /** Every key of the reverse index is the lowercase form of a hostname in
      the table, and every hostname of every provider is a key. */
  lemma {:induction false} ReverseIndexKeys(providers: seq<Provider>, key: string)
    ensures key in ReverseIndex(providers) <==> exists i :: 0 <= i < |providers| && Lists(providers[i], key)
  {
    if providers != [] {
      var n := |providers| - 1;
      var init := providers[..n];
      ReverseIndexKeys(init, key);
      AddHostsEffect(ReverseIndex(init), providers[n].0, providers[n].1, key);
      if exists i :: 0 <= i < |init| && Lists(init[i], key) {
        var i :| 0 <= i < |init| && Lists(init[i], key);
        assert providers[i] == init[i];
      }
      if exists i :: 0 <= i < |providers| && Lists(providers[i], key) {
        var i :| 0 <= i < |providers| && Lists(providers[i], key);
        if i < n {
          assert init[i] == providers[i];
        }
      }
    }
  }

  /** The value of a key is the name of the LAST provider in iteration order
      that lists the hostname: later entries overwrite earlier ones. */
  lemma {:induction false} ReverseIndexLastWins(providers: seq<Provider>, key: string)
    requires key in ReverseIndex(providers)
    ensures exists i :: 0 <= i < |providers| && Lists(providers[i], key)
                        && ReverseIndex(providers)[key] == providers[i].0
                        && forall k :: i < k < |providers| ==> !Lists(providers[k], key)
  {
    var n := |providers| - 1;
    var init := providers[..n];
    var last := providers[n];
    AddHostsEffect(ReverseIndex(init), last.0, last.1, key);
    if Lists(last, key) {
      assert ReverseIndex(providers)[key] == providers[n].0;
    } else {
      ReverseIndexLastWins(init, key);
      var i :| 0 <= i < |init| && Lists(init[i], key)
               && ReverseIndex(init)[key] == init[i].0
               && forall k :: i < k < |init| ==> !Lists(init[k], key);
      assert providers[i] == init[i];
      forall k | i < k < |providers|
        ensures !Lists(providers[k], key)
      {
        if k < n {
          assert providers[k] == init[k];
        }
      }
    }
  }

  /** The keys are lowercase, like the normalised exchange names they are
      looked up with. */
  lemma ReverseIndexKeysLowered(providers: seq<Provider>, key: string)
    requires key in ReverseIndex(providers)
    ensures IsLowered(key)
  {
    ReverseIndexKeys(providers, key);
    var i :| 0 <= i < |providers| && Lists(providers[i], key);
    var j :| 0 <= j < |providers[i].1| && Lower(providers[i].1[j]) == key;
    LowerIsLowered(providers[i].1[j]);
  }
}
