/** The query-string side of the generator: which part of a URL is its
    query, how a query decodes into a string-keyed array, and how an array
    is written back as a query. Percent-encoding and -decoding are not
    modelled: keys and values travel literally. */
module Query {
  import opened Text
  import opened OrderedMap

  /** The query component of a URL: the text after the first `?` and before
      the first `#`; empty when there is no `?`, or when the first `#` comes
      before it (the `?` is then part of the fragment). */
  function QueryOf(url: string): (q: string)
    ensures '#' !in q
    ensures '#' !in url && '?' in url ==> url == Before(url, '?') + "?" + q
    ensures '?' !in url ==> q == ""
    ensures var h := Before(url, '#');
      && ('?' in h ==> h == Before(h, '?') + "?" + q)
      && ('?' !in h ==> q == "")
  {
    var h := Before(url, '#');
    var q := After(h, '?');
    assert '?' in h ==> h == Before(h, '?') + ['?'] + q;
    assert forall i :: 0 <= i < |q| ==> q[i] in h by {
      if '?' in h {
        forall i | 0 <= i < |q|
          ensures q[i] in h
        {
          assert q[i] == h[|Before(h, '?')| + 1 + i];
        }
      }
    }
    assert '?' !in url ==> '?' !in h by {
      if '?' in h {
        assert h <= url;
        var i :| 0 <= i < |h| && h[i] == '?';
        assert url[i] == '?';
      }
    }
    q
  }

  /** A URL written as `base + "?" + q`, with no `#` and no `?` in `base`,
      has query `q` when `q` holds no `#`. */
  lemma QueryOfJoined(base: string, q: string)
    requires '?' !in base && '#' !in base && '#' !in q
    ensures QueryOf(base + "?" + q) == q
  {
    var url := base + "?" + q;
    assert '#' !in url;
    BeforeAfterJoined(base, '?', q);
  }

  /** One `key=value` piece, split at its first `=`; a piece without `=` has
      the empty value. */
  function DecodePair(piece: string): (e: Entry)
    ensures '=' !in e.0
    ensures forall c :: c !in piece ==> c !in e.0 && c !in e.1
  {
    var k, v := Before(piece, '='), After(piece, '=');
    assert forall c :: c !in piece ==> c !in k && c !in v by {
      if '=' in piece {
        assert piece == k + ['='] + v;
      }
    }
    (k, v)
  }

  /** The decoded pairs of the pieces in order; a piece with an empty key is
      dropped. */
  function DecodePairs(pieces: seq<string>): (ps: seq<Entry>)
    ensures |ps| <= |pieces|
    ensures forall e :: e in ps ==> e.0 != "" && '=' !in e.0
    decreases |pieces|
  {
    if |pieces| == 0 then []
    else
      var e := DecodePair(pieces[0]);
      var rest := DecodePairs(pieces[1..]);
      if e.0 == "" then rest else [e] + rest
  }

  /** A character absent from every piece is absent from every decoded key
      and value. */
  lemma {:induction false} DecodePairsAvoid(pieces: seq<string>, c: char)
    requires forall i :: 0 <= i < |pieces| ==> c !in pieces[i]
    ensures forall e :: e in DecodePairs(pieces) ==> c !in e.0 && c !in e.1
    decreases |pieces|
  {
    if |pieces| > 0 {
      assert c !in pieces[0];
      DecodePairsAvoid(pieces[1..], c);
    }
  }

  /** The decoded form of a query: split on `&`, each piece split at its
      first `=`, assigned in order into an empty array, so the last
      occurrence of a repeated key wins. */
  function ParseQuery(q: string): (p: Params)
    ensures UniqueKeys(p)
    ensures forall e :: e in p ==> e.0 != "" && '=' !in e.0 && '&' !in e.0 && '&' !in e.1
    ensures '#' !in q ==> forall e :: e in p ==> '#' !in e.0 && '#' !in e.1
  {
    var pieces := Split(q, '&');
    DecodePairsAvoid(pieces, '&');
    assert '#' !in q ==> forall e :: e in DecodePairs(pieces) ==> '#' !in e.0 && '#' !in e.1 by {
      if '#' !in q {
        forall i | 0 <= i < |pieces|
          ensures '#' !in pieces[i]
        {
          JoinHoldsPieces(pieces, '&', i);
          assert multiset(q)['#'] == 0;
          assert multiset(pieces[i])['#'] == 0;
        }
        DecodePairsAvoid(pieces, '#');
      }
    }
    Assemble(DecodePairs(pieces))
  }

  /** Every character of a piece occurs in the joined string. */
  lemma {:induction false} JoinHoldsPieces(parts: seq<string>, c: char, i: nat)
    requires i < |parts|
    ensures multiset(parts[i]) <= multiset(Join(parts, c))
    decreases |parts|
  {
    if |parts| > 1 {
      var rest := Join(parts[1..], c);
      assert Join(parts, c) == parts[0] + [c] + rest;
      if i > 0 {
        JoinHoldsPieces(parts[1..], c, i - 1);
      }
    }
  }

  /** An entry that can be written into a query and read back unchanged
      without percent-encoding: a non-empty key free of `&`, `=` and `#`,
      and a value free of `&` and `#`. */
  predicate Literal(e: Entry) {
    && e.0 != ""
    && '&' !in e.0 && '=' !in e.0 && '#' !in e.0
    && '&' !in e.1 && '#' !in e.1
  }

  function EncodePairs(p: Params): (pieces: seq<string>)
    ensures |pieces| == |p|
    ensures forall i :: 0 <= i < |p| ==> pieces[i] == p[i].0 + "=" + p[i].1
  {
    seq(|p|, i requires 0 <= i < |p| => p[i].0 + "=" + p[i].1)
  }

  /** `http_build_query`: `key=value` pieces joined with `&`, in array order. */
  function Serialize(p: Params): string {
    Join(EncodePairs(p), '&')
  }

  /** Decoding the serialised form of an array of literal entries gives the
      array back: same keys, same values, same order. */
  lemma ParseSerialize(p: Params)
    requires UniqueKeys(p)
    requires forall e :: e in p ==> Literal(e)
    ensures ParseQuery(Serialize(p)) == p
  {
    var pieces := EncodePairs(p);
    if |p| == 0 {
      assert Split("", '&') == [""];
      assert DecodePair("").0 == "";
    } else {
      forall i | 0 <= i < |pieces|
        ensures '&' !in pieces[i]
      {
        assert p[i] in p;
      }
      SplitJoin(pieces, '&');
      DecodeEncoded(p);
      AssembleUnique(p);
    }
  }

  lemma {:induction false} DecodeEncoded(p: Params)
    requires forall e :: e in p ==> Literal(e)
    ensures DecodePairs(EncodePairs(p)) == p
    decreases |p|
  {
    if |p| > 0 {
      assert p[0] in p;
      BeforeAfterJoined(p[0].0, '=', p[0].1);
      assert EncodePairs(p)[1..] == EncodePairs(p[1..]);
      assert forall e :: e in p[1..] ==> e in p;
      DecodeEncoded(p[1..]);
      assert [p[0]] + p[1..] == p;
    }
  }
}
