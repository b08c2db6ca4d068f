/**
 The activity feed's grouping of audit events by day. The component buckets
 the events under "Today", "Yesterday" or the event's own local date label,
 in an ordered string-keyed dictionary, and renders the buckets in key order.

 The clock and the locale are parameters here: the labels of today and of
 yesterday, and the function that turns an event time into a date label.
 */
module ActivityFeed {

  /** One audit event as the feed reads it (the per-page rent-roll rows are not modelled). */
  datatype Activity = Activity(
    auditEventLsn: int,
    details: string,
    eventTime: string,
    eventType: string,
    companyName: string,
    databaseId: int,
    databaseName: string,
    userEmail: string)

  /**
   What the host supplies at grouping time: the date label of now, the date
   label of now minus 86 400 000 ms, and local date formatting of an event time.
   The two labels may coincide (a 25-hour day at a daylight-saving change).
   */
  datatype Calendar = Calendar(today: string, yesterday: string, dateLabel: string -> string)

  /** The dictionary the grouping builds: its keys in enumeration order and the bucket under each. */
  datatype Groups = Groups(keys: seq<string>, buckets: map<string, seq<Activity>>)

  const TodayKey: string := "Today"
  const YesterdayKey: string := "Yesterday"

  /** The bucket an event whose date label is `date` goes to; the Today test comes first. */
  function BucketKey(date: string, today: string, yesterday: string): string
  {
    if date == today then TodayKey
    else if date == yesterday then YesterdayKey
    else date
  }

  function KeyOf(cal: Calendar, a: Activity): string
  {
    BucketKey(cal.dateLabel(a.eventTime), cal.today, cal.yesterday)
  }

  /**
   The keys of the dictionary after the events of `acts` were placed, in order:
   the two seeded keys, then each other key when first seen.
   */
  function KeyOrder(acts: seq<Activity>, cal: Calendar): seq<string>
  {
    if acts == [] then [TodayKey, YesterdayKey]
    else
      var keys := KeyOrder(acts[..|acts| - 1], cal);
      var k := KeyOf(cal, acts[|acts| - 1]);
      if k in keys then keys else keys + [k]
  }

  /** The events of `acts` whose bucket is `k`, in input order. */
  function Bucket(acts: seq<Activity>, cal: Calendar, k: string): seq<Activity>
  {
    if acts == [] then []
    else
      var last := acts[|acts| - 1];
      Bucket(acts[..|acts| - 1], cal, k) + if KeyOf(cal, last) == k then [last] else []
  }

  /** The events as the feed lists them: the buckets of `keys`, one after the other. */
  function Listing(acts: seq<Activity>, cal: Calendar, keys: seq<string>): seq<Activity>
  {
    if keys == [] then [] else Bucket(acts, cal, keys[0]) + Listing(acts, cal, keys[1..])
  }

  predicate Distinct(keys: seq<string>)
  {
    forall p, q :: 0 <= p < q < |keys| ==> keys[p] != keys[q]
  }

  /**
   Groups the events by day. The dictionary starts with the two seeded empty
   buckets; each event, visited in input order, is appended to its bucket,
   which is created the first time its key is seen.
   */
  method GroupByDate(activities: seq<Activity>, cal: Calendar) returns (groups: Groups)
    ensures groups.keys == KeyOrder(activities, cal)
    ensures forall k :: k in groups.buckets <==> k in groups.keys
    ensures forall k :: k in groups.buckets ==> groups.buckets[k] == Bucket(activities, cal, k)
  {
    var keys := [TodayKey, YesterdayKey];
    var buckets: map<string, seq<Activity>> := map[TodayKey := [], YesterdayKey := []];
    var i := 0;
    while i < |activities|
      invariant 0 <= i <= |activities|
      invariant keys == KeyOrder(activities[..i], cal)
      invariant forall k :: k in buckets <==> k in keys
      invariant forall k :: k in buckets ==> buckets[k] == Bucket(activities[..i], cal, k)
    {
      var activity := activities[i];
      assert activities[..i + 1][..i] == activities[..i];
      KeyOrderShape(activities[..i], cal);
      var date := cal.dateLabel(activity.eventTime);
      if date == cal.today {
        buckets := buckets[TodayKey := buckets[TodayKey] + [activity]];
      } else if date == cal.yesterday {
        buckets := buckets[YesterdayKey := buckets[YesterdayKey] + [activity]];
      } else {
        if date !in buckets {
          BucketOutsideKeyOrder(activities[..i], cal, date);
          buckets := buckets[date := []];
          keys := keys + [date];
        }
        buckets := buckets[date := buckets[date] + [activity]];
      }
      i := i + 1;
    }
    assert activities[..i] == activities;
    groups := Groups(keys, buckets);
  }

  /** The key order always starts with the two seeded keys and never repeats a key. */
  lemma {:induction false} KeyOrderShape(acts: seq<Activity>, cal: Calendar)
    ensures |KeyOrder(acts, cal)| >= 2
    ensures KeyOrder(acts, cal)[0] == TodayKey && KeyOrder(acts, cal)[1] == YesterdayKey
    ensures Distinct(KeyOrder(acts, cal))
  {
    if acts != [] {
      KeyOrderShape(acts[..|acts| - 1], cal);
    }
  }

  /** A key is in the key order exactly when it is seeded or is the bucket of some event. */
  lemma {:induction false} KeyOrderMembers(acts: seq<Activity>, cal: Calendar, k: string)
    ensures k in KeyOrder(acts, cal) <==>
      k == TodayKey || k == YesterdayKey || exists i :: 0 <= i < |acts| && KeyOf(cal, acts[i]) == k
  {
    if acts != [] {
      var init := acts[..|acts| - 1];
      KeyOrderMembers(init, cal, k);
      if exists i :: 0 <= i < |init| && KeyOf(cal, init[i]) == k {
        var i :| 0 <= i < |init| && KeyOf(cal, init[i]) == k;
        assert acts[i] == init[i];
      }
      if exists i :: 0 <= i < |acts| && KeyOf(cal, acts[i]) == k {
        var i :| 0 <= i < |acts| && KeyOf(cal, acts[i]) == k;
        if i < |init| {
          assert init[i] == acts[i];
        }
      }
    }
  }

  /** An event is in bucket `k` exactly when it is one of the input events and its bucket is `k`. */
  lemma {:induction false} BucketMembers(acts: seq<Activity>, cal: Calendar, k: string, x: Activity)
    ensures x in Bucket(acts, cal, k) <==> x in acts && KeyOf(cal, x) == k
  {
    if acts != [] {
      var init := acts[..|acts| - 1];
      BucketMembers(init, cal, k, x);
      assert acts == init + [acts[|acts| - 1]];
    }
  }

  /** A key that is not in the dictionary has no events. */
  lemma BucketOutsideKeyOrder(acts: seq<Activity>, cal: Calendar, k: string)
    requires k !in KeyOrder(acts, cal)
    ensures Bucket(acts, cal, k) == []
  {
    var b := Bucket(acts, cal, k);
    if b != [] {
      BucketMembers(acts, cal, k, b[0]);
      var i :| 0 <= i < |acts| && acts[i] == b[0];
      KeyOrderMembers(acts, cal, k);
      assert false;
    }
  }

  /**
   Each event lies in exactly one bucket, the one its key names: with the
   Today test first, then the Yesterday test, else its own date label.
   */
  lemma PlacedInOneBucket(acts: seq<Activity>, cal: Calendar, i: int)
    requires 0 <= i < |acts|
    ensures KeyOf(cal, acts[i]) in KeyOrder(acts, cal)
    ensures acts[i] in Bucket(acts, cal, KeyOf(cal, acts[i]))
    ensures forall k :: k != KeyOf(cal, acts[i]) ==> acts[i] !in Bucket(acts, cal, k)
  {
    KeyOrderMembers(acts, cal, KeyOf(cal, acts[i]));
    BucketMembers(acts, cal, KeyOf(cal, acts[i]), acts[i]);
    forall k | k != KeyOf(cal, acts[i])
      ensures acts[i] !in Bucket(acts, cal, k)
    {
      BucketMembers(acts, cal, k, acts[i]);
    }
  }

  /**
   An event dated today goes to "Today" and nowhere else, even when today's
   label is also yesterday's.
   */
  lemma TodayTakesPrecedence(acts: seq<Activity>, cal: Calendar, i: int)
    requires 0 <= i < |acts| && cal.dateLabel(acts[i].eventTime) == cal.today
    ensures acts[i] in Bucket(acts, cal, TodayKey)
    ensures acts[i] !in Bucket(acts, cal, YesterdayKey)
  {
    PlacedInOneBucket(acts, cal, i);
  }

  /** Nothing in the "Yesterday" bucket carries today's label. */
  lemma YesterdayExcludesToday(acts: seq<Activity>, cal: Calendar, x: Activity)
    requires x in Bucket(acts, cal, YesterdayKey)
    ensures x in acts && cal.dateLabel(x.eventTime) != cal.today
  {
    BucketMembers(acts, cal, YesterdayKey, x);
  }

  /**
   Within a bucket, events keep their input order: the bucket is the input
   restricted to the positions, increasing, of exactly the events with that key.
   */
  lemma {:induction false} BucketKeepsInputOrder(acts: seq<Activity>, cal: Calendar, k: string)
    returns (positions: seq<nat>)
    ensures |positions| == |Bucket(acts, cal, k)|
    ensures forall m :: 0 <= m < |positions| ==>
      positions[m] < |acts| && acts[positions[m]] == Bucket(acts, cal, k)[m] && KeyOf(cal, acts[positions[m]]) == k
    ensures forall m, n :: 0 <= m < n < |positions| ==> positions[m] < positions[n]
    ensures forall i :: 0 <= i < |acts| && KeyOf(cal, acts[i]) == k ==> i in positions
  {
    if acts == [] {
      positions := [];
    } else {
      var init := acts[..|acts| - 1];
      var last := acts[|acts| - 1];
      positions := BucketKeepsInputOrder(init, cal, k);
      assert forall m :: 0 <= m < |positions| ==> acts[positions[m]] == init[positions[m]];
      if KeyOf(cal, last) == k {
        positions := positions + [|acts| - 1];
      }
    }
  }

  /** The keys after the seeded two each name a non-empty bucket. */
  lemma CreatedBucketsNonEmpty(acts: seq<Activity>, cal: Calendar, p: int)
    requires 2 <= p < |KeyOrder(acts, cal)|
    ensures Bucket(acts, cal, KeyOrder(acts, cal)[p]) != []
  {
    var keys := KeyOrder(acts, cal);
    KeyOrderShape(acts, cal);
    KeyOrderMembers(acts, cal, keys[p]);
    var i :| 0 <= i < |acts| && KeyOf(cal, acts[i]) == keys[p];
    BucketMembers(acts, cal, keys[p], acts[i]);
  }

  /**
   After the seeded two, keys appear in first-seen order: for any two such
   keys, some event of the earlier key comes before every event of the later one.
   */
  lemma {:induction false} KeysInFirstSeenOrder(acts: seq<Activity>, cal: Calendar, p: int, q: int)
    requires 2 <= p < q < |KeyOrder(acts, cal)|
    ensures exists i :: 0 <= i < |acts| && KeyOf(cal, acts[i]) == KeyOrder(acts, cal)[p] &&
                        (forall j :: 0 <= j <= i ==> KeyOf(cal, acts[j]) != KeyOrder(acts, cal)[q])
  {
    var init := acts[..|acts| - 1];
    var last := acts[|acts| - 1];
    var before := KeyOrder(init, cal);
    var keys := KeyOrder(acts, cal);
    if q < |before| {
      KeysInFirstSeenOrder(init, cal, p, q);
      var i :| 0 <= i < |init| && KeyOf(cal, init[i]) == before[p] &&
        forall j :: 0 <= j <= i ==> KeyOf(cal, init[j]) != before[q];
      assert forall j :: 0 <= j <= i ==> acts[j] == init[j];
      assert KeyOf(cal, acts[i]) == keys[p];
    } else {
      assert keys == before + [KeyOf(cal, last)];
      KeyOrderShape(init, cal);
      KeyOrderMembers(init, cal, before[p]);
      var i :| 0 <= i < |init| && KeyOf(cal, init[i]) == before[p];
      forall j | 0 <= j <= i
        ensures KeyOf(cal, acts[j]) != keys[q]
      {
        assert acts[j] == init[j];
        KeyOrderMembers(init, cal, KeyOf(cal, init[j]));
      }
      assert acts[i] == init[i];
    }
  }

  lemma {:induction false} ListingAppendKey(acts: seq<Activity>, cal: Calendar, keys: seq<string>, k: string)
    ensures Listing(acts, cal, keys + [k]) == Listing(acts, cal, keys) + Bucket(acts, cal, k)
  {
    if keys == [] {
      assert keys + [k] == [k];
    } else {
      assert (keys + [k])[1..] == keys[1..] + [k];
      ListingAppendKey(acts, cal, keys[1..], k);
    }
  }

  /** Appending one event adds it to the listing of distinct keys once, if its key is among them. */
  lemma {:induction false} ListingAddActivity(init: seq<Activity>, x: Activity, cal: Calendar, keys: seq<string>)
    requires Distinct(keys)
    ensures multiset(Listing(init + [x], cal, keys)) ==
      multiset(Listing(init, cal, keys)) + if KeyOf(cal, x) in keys then multiset{x} else multiset{}
  {
    var acts := init + [x];
    assert acts[..|acts| - 1] == init;
    if keys != [] {
      ListingAddActivity(init, x, cal, keys[1..]);
      assert keys == [keys[0]] + keys[1..];
    }
  }

  /**
   Rendering the buckets in key order lists every input event exactly once:
   the listing is a permutation of the input.
   */
  lemma {:induction false} EveryActivityListedOnce(acts: seq<Activity>, cal: Calendar)
    ensures multiset(Listing(acts, cal, KeyOrder(acts, cal))) == multiset(acts)
    ensures |Listing(acts, cal, KeyOrder(acts, cal))| == |acts|
  {
    var listing := Listing(acts, cal, KeyOrder(acts, cal));
    if acts != [] {
      var init := acts[..|acts| - 1];
      var x := acts[|acts| - 1];
      var k := KeyOf(cal, x);
      var keys := KeyOrder(init, cal);
      assert acts == init + [x];
      EveryActivityListedOnce(init, cal);
      KeyOrderShape(init, cal);
      ListingAddActivity(init, x, cal, keys);
      if k in keys {
        assert KeyOrder(acts, cal) == keys;
        assert multiset(listing) == multiset(init) + multiset{x};
      } else {
        assert KeyOrder(acts, cal) == keys + [k];
        ListingAppendKey(acts, cal, keys, k);
        BucketOutsideKeyOrder(init, cal, k);
        assert Bucket(acts, cal, k) == [x];
        assert listing == Listing(acts, cal, keys) + [x];
        assert multiset(Listing(acts, cal, keys)) == multiset(init);
      }
      assert multiset(acts) == multiset(init) + multiset{x};
    } else {
      assert [TodayKey, YesterdayKey][1..] == [YesterdayKey];
      assert Listing(acts, cal, [YesterdayKey]) == [];
    }
    assert |multiset(listing)| == |listing|;
  }
}
