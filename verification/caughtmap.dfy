/** The in-memory half of reading a user's catch records: each record's sort
    key ("FISH#<id>") is split on '#', and records whose key has exactly two
    parts are collected into a map from fish id to the caught flag. */
module CaughtMap {
  import opened Models

  datatype Option<T> = None | Some(value: T)

  const Separator: char := '#'

  /** Splits `s` around every occurrence of `sep`, keeping empty parts, as
      Go's strings.Split does for a one-character separator. */
  function SplitOn(s: string, sep: char): (parts: seq<string>)
    ensures |parts| >= 1
  {
    if s == [] then [""]
    else if s[0] == sep then [""] + SplitOn(s[1..], sep)
    else
      var rest := SplitOn(s[1..], sep);
      [[s[0]] + rest[0]] + rest[1..]
  }

  /** Joins parts with `sep` between neighbours. */
  function JoinWith(parts: seq<string>, sep: char): string
    requires |parts| >= 1
  {
    if |parts| == 1 then parts[0] else parts[0] + [sep] + JoinWith(parts[1..], sep)
  }

  /** There is one more part than there are separators. */
  lemma {:induction false} SplitOnCount(s: string, sep: char)
    ensures |SplitOn(s, sep)| == multiset(s)[sep] + 1
  {
    if s != [] {
      SplitOnCount(s[1..], sep);
      assert s == [s[0]] + s[1..];
      assert multiset(s) == multiset([s[0]]) + multiset(s[1..]);
    }
  }

  /** No part contains the separator, and joining the parts gives `s` back. */
  lemma {:induction false} SplitOnJoin(s: string, sep: char)
    ensures forall k :: 0 <= k < |SplitOn(s, sep)| ==> sep !in SplitOn(s, sep)[k]
    ensures JoinWith(SplitOn(s, sep), sep) == s
  {
    if s != [] {
      SplitOnJoin(s[1..], sep);
      var rest := SplitOn(s[1..], sep);
      if s[0] != sep {
        var parts := SplitOn(s, sep);
        assert parts[0] == [s[0]] + rest[0];
        assert parts[1..] == rest[1..];
        forall k | 1 <= k < |parts| ensures sep !in parts[k] {
          assert parts[k] == rest[k];
        }
        if |rest| > 1 {
          assert JoinWith(parts, sep) == parts[0] + [sep] + JoinWith(rest[1..], sep);
          assert JoinWith(rest, sep) == rest[0] + [sep] + JoinWith(rest[1..], sep);
        }
        assert s == [s[0]] + s[1..];
      } else {
        assert s == [sep] + s[1..];
      }
    }
  }

  /** A string without the separator is a single part. */
  lemma {:induction false} SplitOnWithoutSeparator(s: string, sep: char)
    requires sep !in s
    ensures SplitOn(s, sep) == [s]
  {
    if s != [] {
      SplitOnWithoutSeparator(s[1..], sep);
      assert s == [s[0]] + s[1..];
    }
  }

  /** A separator-free head splits off as the first part. */
  lemma {:induction false} SplitOnPrefix(p: string, sep: char, q: string)
    requires sep !in p
    ensures SplitOn(p + [sep] + q, sep) == [p] + SplitOn(q, sep)
  {
    var s := p + [sep] + q;
    if p == [] {
      assert s == [sep] + q;
      assert s[1..] == q;
    } else {
      assert s[0] == p[0];
      assert s[1..] == p[1..] + [sep] + q;
      SplitOnPrefix(p[1..], sep, q);
      assert [p[0]] + p[1..] == p;
    }
  }

  /** The fish id named by a sort key: the second part when the key splits
      into exactly two parts; the first part is not looked at. */
  function FishIdOf(sk: string): Option<string>
  {
    var parts := SplitOn(sk, Separator);
    if |parts| == 2 then Some(parts[1]) else None
  }

  /** A key is kept exactly when it holds a single '#'. */
  lemma FishIdOfKeptIffOneSeparator(sk: string)
    ensures FishIdOf(sk).Some? <==> multiset(sk)[Separator] == 1
  {
    SplitOnCount(sk, Separator);
  }

  /** A kept key is "<prefix>#<id>" with neither side holding a '#'. */
  lemma FishIdOfShape(sk: string)
    requires FishIdOf(sk).Some?
    ensures var parts := SplitOn(sk, Separator);
            && sk == parts[0] + [Separator] + FishIdOf(sk).value
            && Separator !in parts[0] && Separator !in FishIdOf(sk).value
  {
    var parts := SplitOn(sk, Separator);
    SplitOnJoin(sk, Separator);
    assert JoinWith(parts, Separator) == parts[0] + [Separator] + JoinWith(parts[1..], Separator);
    assert Separator !in parts[0] && Separator !in parts[1];
  }

  /** Any prefix is accepted: "<prefix>#<id>" names `id` whatever the prefix
      says, as long as neither side holds a '#'. */
  lemma FishIdOfAnyPrefix(prefix: string, id: string)
    requires Separator !in prefix && Separator !in id
    ensures FishIdOf(prefix + [Separator] + id) == Some(id)
  {
    SplitOnPrefix(prefix, Separator, id);
    SplitOnWithoutSeparator(id, Separator);
  }

  /** The map the record loop builds: records in order, each kept record
      overwriting whatever an earlier one stored under its id. */
  function CaughtMapOf(records: seq<UserFishRecord>): map<string, bool>
  {
    if records == [] then map[]
    else
      var m := CaughtMapOf(records[..|records| - 1]);
      var last := records[|records| - 1];
      match FishIdOf(last.sk)
      case Some(id) => m[id := last.caught]
      case None => m
  }

  /** Fills the map record by record, skipping keys that do not split into two parts. */
  method GetUserCaughtFishMap(records: seq<UserFishRecord>) returns (caughtMap: map<string, bool>)
    ensures caughtMap == CaughtMapOf(records)
    ensures forall k :: k in caughtMap ==> exists i :: 0 <= i < |records| && FishIdOf(records[i].sk) == Some(k)
  {
    caughtMap := map[];
    for i := 0 to |records|
      invariant caughtMap == CaughtMapOf(records[..i])
    {
      var parts := SplitOn(records[i].sk, Separator);
      if |parts| == 2 {
        var fishId := parts[1];
        caughtMap := caughtMap[fishId := records[i].caught];
      }
      assert records[..i + 1][..i] == records[..i];
    }
    assert records[..|records|] == records;
    forall k | k in caughtMap
      ensures exists i :: 0 <= i < |records| && FishIdOf(records[i].sk) == Some(k)
    {
      CaughtMapKeys(records, k);
    }
  }

  /** An id is a key of the map exactly when some record names it. */
  lemma {:induction false} CaughtMapKeys(records: seq<UserFishRecord>, id: string)
    ensures id in CaughtMapOf(records)
        <==> exists i :: 0 <= i < |records| && FishIdOf(records[i].sk) == Some(id)
  {
    if records != [] {
      var init := records[..|records| - 1];
      CaughtMapKeys(init, id);
      if exists i :: 0 <= i < |init| && FishIdOf(init[i].sk) == Some(id) {
        var i :| 0 <= i < |init| && FishIdOf(init[i].sk) == Some(id);
        assert records[i] == init[i];
      }
      if exists i :: 0 <= i < |records| && FishIdOf(records[i].sk) == Some(id) {
        var i :| 0 <= i < |records| && FishIdOf(records[i].sk) == Some(id);
        if i < |init| {
          assert init[i] == records[i];
        }
      }
    }
  }

  /** The last record that names an id decides its value; records after it
      that name other ids, or no id, leave it alone. */
  lemma {:induction false} CaughtMapLastWins(records: seq<UserFishRecord>, i: nat)
    requires i < |records| && FishIdOf(records[i].sk).Some?
    requires forall j :: i < j < |records| ==> FishIdOf(records[j].sk) != FishIdOf(records[i].sk)
    ensures FishIdOf(records[i].sk).value in CaughtMapOf(records)
    ensures CaughtMapOf(records)[FishIdOf(records[i].sk).value] == records[i].caught
  {
    var init := records[..|records| - 1];
    if i < |records| - 1 {
      forall j | i < j < |init|
        ensures FishIdOf(init[j].sk) != FishIdOf(init[i].sk)
      {
        assert init[j] == records[j];
      }
      CaughtMapLastWins(init, i);
      assert init[i] == records[i];
    }
  }
}
