/** What `list` prints: every binding of the link map, one entry per
    abbreviation, in ascending abbreviation order (`key_values.keys().sorted()`).
 */
module Listing {
  import opened Lex

  type Entry = (string, string)

  /** Each entry of `l` is a binding of `m`. */
  ghost predicate OnlyBindings(m: map<string, string>, l: seq<Entry>) {
    forall e :: e in l ==> e.0 in m && e.1 == m[e.0]
  }

  /** Each binding of `m` is an entry of `l`. */
  ghost predicate AllBindings(m: map<string, string>, l: seq<Entry>) {
    forall k :: k in m ==> (k, m[k]) in l
  }

  /** Each abbreviation sorts before the next, so none occurs twice. */
  predicate StrictlyAscending(ks: seq<string>) {
    forall i, j :: 0 <= i < j < |ks| ==> Less(ks[i], ks[j])
  }

  /** The abbreviations of a listing, in listing order. */
  function Abbreviations(l: seq<Entry>): seq<string> {
    seq(|l|, i requires 0 <= i < |l| => l[i].0)
  }

  /** `l` is what `list` prints for the map `m`. */
  ghost predicate IsListing(m: map<string, string>, l: seq<Entry>) {
    OnlyBindings(m, l) && AllBindings(m, l) && StrictlyAscending(Abbreviations(l))
  }

  /** Every non-empty set of abbreviations has a least one. */
  lemma {:induction false} LeastExists(keys: set<string>)
    requires keys != {}
    ensures exists k :: k in keys && forall x :: x in keys && x != k ==> Less(k, x)
    decreases |keys|
  {
    var y :| y in keys;
    var rest := keys - {y};
    if rest != {} {
      LeastExists(rest);
      var k :| k in rest && forall x :: x in rest && x != k ==> Less(k, x);
      LessTotal(y, k);
      if Less(y, k) {
        forall x | x in keys && x != y ensures Less(y, x) {
          if x != k {
            LessTransitive(y, k, x);
          }
        }
      } else {
        assert forall x :: x in keys && x != k ==> Less(k, x);
      }
    }
  }

  ghost function Least(keys: set<string>): (k: string)
    requires keys != {}
    ensures k in keys
    ensures forall x :: x in keys && x != k ==> Less(k, x)
  {
    LeastExists(keys);
    var k :| k in keys && forall x :: x in keys && x != k ==> Less(k, x);
    k
  }

  lemma RemoveOne(m: map<string, string>, k: string)
    requires k in m
    ensures |m - {k}| == |m| - 1
    ensures forall x :: x in m - {k} <==> x in m && x != k
  {
    assert (m - {k}).Keys == m.Keys - {k};
  }

  /** The listing of `m`: its least binding first, then the rest. */
  ghost function SortedListing(m: map<string, string>): (l: seq<Entry>)
    decreases |m|
  {
    if |m| == 0 then []
    else
      var k := Least(m.Keys);
      RemoveOne(m, k);
      [(k, m[k])] + SortedListing(m - {k})
  }

  /** Putting the least binding in front of a listing of the other bindings
      gives a listing of the whole map. */
  lemma ConsListing(m: map<string, string>, k: string, tail: seq<Entry>)
    requires k in m
    requires forall x :: x in m && x != k ==> Less(k, x)
    requires IsListing(m - {k}, tail)
    ensures IsListing(m, [(k, m[k])] + tail)
  {
    RemoveOne(m, k);
    ConsOnlyBindings(m, k, tail);
    ConsAllBindings(m, k, tail);
    ConsAscending(m, k, tail);
  }

  lemma ConsOnlyBindings(m: map<string, string>, k: string, tail: seq<Entry>)
    requires k in m
    requires OnlyBindings(m - {k}, tail)
    ensures OnlyBindings(m, [(k, m[k])] + tail)
  {
    var l := [(k, m[k])] + tail;
    forall e | e in l ensures e.0 in m && e.1 == m[e.0] {
      if e != l[0] {
        assert e in tail;
      }
    }
  }

  lemma ConsAllBindings(m: map<string, string>, k: string, tail: seq<Entry>)
    requires k in m
    requires AllBindings(m - {k}, tail)
    ensures AllBindings(m, [(k, m[k])] + tail)
  {
    var l := [(k, m[k])] + tail;
    forall x | x in m ensures (x, m[x]) in l {
      if x != k {
        assert x in m - {k};
        assert (x, m[x]) in tail;
      }
    }
  }

  lemma ConsAscending(m: map<string, string>, k: string, tail: seq<Entry>)
    requires k in m
    requires forall x :: x in m && x != k ==> Less(k, x)
    requires OnlyBindings(m - {k}, tail)
    requires StrictlyAscending(Abbreviations(tail))
    ensures StrictlyAscending(Abbreviations([(k, m[k])] + tail))
  {
    var ts := Abbreviations(tail);
    assert Abbreviations([(k, m[k])] + tail) == [k] + ts;
    forall j | 0 <= j < |ts| ensures Less(k, ts[j]) {
      assert tail[j] in tail;
    }
  }

  lemma {:induction false} SortedListingIsListing(m: map<string, string>)
    ensures IsListing(m, SortedListing(m))
    decreases |m|
  {
    if |m| > 0 {
      var k := Least(m.Keys);
      RemoveOne(m, k);
      SortedListingIsListing(m - {k});
      ConsListing(m, k, SortedListing(m - {k}));
    }
  }

  /** The first entry of any listing of a non-empty map is its least
      abbreviation. */
  lemma ListingHead(m: map<string, string>, l: seq<Entry>)
    requires IsListing(m, l) && |m| > 0
    ensures |l| > 0 && l[0] == (Least(m.Keys), m[Least(m.Keys)])
  {
    var k := Least(m.Keys);
    assert (k, m[k]) in l;
    var i :| 0 <= i < |l| && l[i] == (k, m[k]);
    if i != 0 {
      assert l[0] in l;
      assert Less(Abbreviations(l)[0], Abbreviations(l)[i]);
      LessAsymmetric(l[0].0, k);
    }
  }

  /** Dropping the least binding from a listing leaves a listing of the
      other bindings. */
  lemma TailListing(m: map<string, string>, l: seq<Entry>)
    requires IsListing(m, l) && |l| > 0
    ensures l[0].0 in m
    ensures IsListing(m - {l[0].0}, l[1..])
  {
    var k := l[0].0;
    assert l[0] in l;
    RemoveOne(m, k);
    var tail := l[1..];
    assert OnlyBindings(m - {k}, tail) by {
      forall e | e in tail ensures e.0 in m - {k} && e.1 == (m - {k})[e.0] {
        var i :| 0 <= i < |tail| && tail[i] == e;
        assert l[i + 1] == e;
        assert Less(Abbreviations(l)[0], Abbreviations(l)[i + 1]);
        LessIrreflexive(k);
      }
    }
    assert AllBindings(m - {k}, tail) by {
      forall x | x in m - {k} ensures (x, (m - {k})[x]) in tail {
        assert (x, m[x]) in l;
        var j :| 0 <= j < |l| && l[j] == (x, m[x]);
        assert j != 0;
        assert tail[j - 1] == l[j];
      }
    }
    assert Abbreviations(tail) == Abbreviations(l)[1..];
  }

  /** A map has exactly one listing: however the keys get sorted, `list`
      prints the same lines. */
  lemma {:induction false} ListingUnique(m: map<string, string>, l: seq<Entry>)
    requires IsListing(m, l)
    ensures l == SortedListing(m)
    decreases |l|
  {
    if |l| == 0 {
      NothingListed(m);
    } else {
      TailListing(m, l);
      var k := l[0].0;
      RemoveOne(m, k);
      ListingHead(m, l);
      ListingUnique(m - {k}, l[1..]);
      assert SortedListing(m) == [(k, m[k])] + SortedListing(m - {k});
      assert l == [l[0]] + l[1..];
    }
  }

  /** Only the empty map has the empty listing. */
  lemma NothingListed(m: map<string, string>)
    requires AllBindings(m, [])
    ensures SortedListing(m) == []
  {
    assert forall k :: k !in m;
    assert m == map[];
  }

  /** A listing has one entry per binding. */
  lemma {:induction false} ListingLength(m: map<string, string>)
    ensures |SortedListing(m)| == |m|
    decreases |m|
  {
    if |m| > 0 {
      var k := Least(m.Keys);
      RemoveOne(m, k);
      ListingLength(m - {k});
    }
  }

  /** Picks the least abbreviation of a non-empty set, one candidate at a
      time. */
  method LeastKey(keys: set<string>) returns (k: string)
    requires keys != {}
    ensures k in keys
    ensures forall x :: x in keys && x != k ==> Less(k, x)
  {
    k :| k in keys;
    var rest := keys - {k};
    while rest != {}
      invariant rest <= keys && k in keys && k !in rest
      invariant forall x :: x in keys && x !in rest && x != k ==> Less(k, x)
      decreases |rest|
    {
      var y :| y in rest;
      LessTotal(y, k);
      if Less(y, k) {
        forall x | x in keys && x !in rest && x != y ensures Less(y, x) {
          if x != k {
            LessTransitive(y, k, x);
          }
        }
        k := y;
      }
      rest := rest - {y};
    }
  }

  /** `keys.sorted()`: the abbreviations, each once, in ascending order. */
  method SortedKeys(keys: set<string>) returns (ks: seq<string>)
    ensures StrictlyAscending(ks)
    ensures forall k :: k in keys <==> k in ks
  {
    ks := [];
    var remaining := keys;
    while remaining != {}
      invariant remaining <= keys
      invariant forall k :: k in keys <==> k in ks || k in remaining
      invariant forall i :: 0 <= i < |ks| ==> ks[i] !in remaining
      invariant StrictlyAscending(ks)
      invariant forall i, x :: 0 <= i < |ks| && x in remaining ==> Less(ks[i], x)
      decreases |remaining|
    {
      var k := LeastKey(remaining);
      ks := ks + [k];
      remaining := remaining - {k};
    }
  }
}
