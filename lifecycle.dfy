/**
 * Sequences of calls to the two database operations, replayed on the table one after
 * another, and what every such sequence guarantees: a stored secret is handed out at
 * most once, a token that was never stored is never answered, and the record of a
 * secret survives any number of operations on other secrets.
 */
module Lifecycle {
  import opened Wrappers
  import Fernet
  import opened Secrets

  /** One call into the database module, with the clock reading and random inputs it sees. */
  datatype Call =
    | Save(key: SecretId, secretText: Fernet.Plaintext, expireMinutes: int, now: Timestamp, iv: Fernet.Iv)
    | Get(key: SecretId, now: Timestamp)

  /** A save draws a UUID that is not already in the table. */
  predicate Permitted(store: Store, c: Call)
  {
    c.Save? ==> c.key !in store
  }

  /** The effect of one call; a save hands back no secret. */
  function Step(store: Store, fernet: Fernet.Key, c: Call): (r: Retrieval)
    requires Permitted(store, c)
  {
    match c
    case Save(key, secretText, expireMinutes, now, iv) =>
      Retrieval(None, Deposit(store, fernet, key, secretText, expireMinutes, now, iv))
    case Get(key, now) =>
      Consume(store, fernet, key, now)
  }

  /** Every save in the sequence draws a UUID absent from the table at that point. */
  predicate Admissible(store: Store, fernet: Fernet.Key, calls: seq<Call>)
    decreases |calls|
  {
    |calls| == 0 ||
    (Permitted(store, calls[0]) && Admissible(Step(store, fernet, calls[0]).store, fernet, calls[1..]))
  }

  /** What each call returned, in order, and the table at the end. */
  datatype Run = Run(outputs: seq<Option<Fernet.Plaintext>>, final: Store)

  function Replay(store: Store, fernet: Fernet.Key, calls: seq<Call>): (r: Run)
    requires Admissible(store, fernet, calls)
    ensures |r.outputs| == |calls|
    decreases |calls|
  {
    if |calls| == 0 then
      Run([], store)
    else
      var first := Step(store, fernet, calls[0]);
      var rest := Replay(first.store, fernet, calls[1..]);
      Run([first.secret] + rest.outputs, rest.final)
  }

  /** No call in the sequence names `key`. */
  predicate NoCallOn(calls: seq<Call>, key: SecretId)
  {
    forall i :: 0 <= i < |calls| ==> calls[i].key != key
  }

  /** No call in the sequence saves under `key`. */
  predicate NoSaveOf(calls: seq<Call>, key: SecretId)
  {
    forall i :: 0 <= i < |calls| ==> !(calls[i].Save? && calls[i].key == key)
  }

  /** How many reads of `key` in the sequence handed out a secret. */
  function RevealCount(calls: seq<Call>, outputs: seq<Option<Fernet.Plaintext>>, key: SecretId): nat
    requires |outputs| == |calls|
    decreases |calls|
  {
    if |calls| == 0 then 0
    else
      (if calls[0].Get? && calls[0].key == key && outputs[0].Some? then 1 else 0)
      + RevealCount(calls[1..], outputs[1..], key)
  }

  /** A sequence that can be replayed splits into two that can be replayed one after the other. */
  lemma {:induction false} AdmissibleAppend(store: Store, fernet: Fernet.Key, a: seq<Call>, b: seq<Call>)
    requires Admissible(store, fernet, a + b)
    ensures Admissible(store, fernet, a)
    ensures Admissible(Replay(store, fernet, a).final, fernet, b)
    decreases |a|
  {
    if |a| == 0 {
      assert a + b == b;
    } else {
      ConcatSplit(a, b);
      AdmissibleAppend(Step(store, fernet, a[0]).store, fernet, a[1..], b);
    }
  }

  /** Both predicates carry over from a sequence to its tail. */
  lemma TailKeepsAway(calls: seq<Call>, key: SecretId)
    requires |calls| > 0
    ensures NoCallOn(calls, key) ==> NoCallOn(calls[1..], key)
    ensures NoSaveOf(calls, key) ==> NoSaveOf(calls[1..], key)
  {
    forall i | 0 <= i < |calls[1..]| ensures calls[1..][i] == calls[i + 1] {
    }
  }

  /** Replaying two sequences one after the other is replaying their concatenation. */
  lemma {:induction false} ReplayAppend(store: Store, fernet: Fernet.Key, a: seq<Call>, b: seq<Call>)
    requires Admissible(store, fernet, a + b)
    ensures Admissible(store, fernet, a)
    ensures Admissible(Replay(store, fernet, a).final, fernet, b)
    ensures Replay(store, fernet, a + b) ==
            Run(Replay(store, fernet, a).outputs + Replay(Replay(store, fernet, a).final, fernet, b).outputs,
                Replay(Replay(store, fernet, a).final, fernet, b).final)
    decreases |a|
  {
    AdmissibleAppend(store, fernet, a, b);
    if |a| == 0 {
      assert a + b == b;
    } else {
      ConcatSplit(a, b);
      var first := Step(store, fernet, a[0]);
      ReplayAppend(first.store, fernet, a[1..], b);
      var ra := Replay(first.store, fernet, a[1..]);
      var rb := Replay(ra.final, fernet, b);
      assert Replay(store, fernet, a) == Run([first.secret] + ra.outputs, ra.final);
      assert Replay(first.store, fernet, a[1..] + b) == Run(ra.outputs + rb.outputs, rb.final);
      ConcatAssociative([first.secret], ra.outputs, rb.outputs);
    }
  }

  lemma ConcatSplit<X>(a: seq<X>, b: seq<X>)
    requires |a| > 0
    ensures (a + b)[0] == a[0] && (a + b)[1..] == a[1..] + b
  {
  }

  lemma ConcatAssociative<X>(x: seq<X>, y: seq<X>, z: seq<X>)
    ensures x + (y + z) == (x + y) + z
  {
  }

  /** Counting reveals over a concatenation adds the counts of its parts. */
  lemma {:induction false} RevealCountAppend(a: seq<Call>, oa: seq<Option<Fernet.Plaintext>>,
                                             b: seq<Call>, ob: seq<Option<Fernet.Plaintext>>, key: SecretId)
    requires |oa| == |a| && |ob| == |b|
    ensures RevealCount(a + b, oa + ob, key) == RevealCount(a, oa, key) + RevealCount(b, ob, key)
    decreases |a|
  {
    if |a| == 0 {
      assert a + b == b && oa + ob == ob;
    } else {
      assert (a + b)[1..] == a[1..] + b;
      assert (oa + ob)[1..] == oa[1..] + ob;
      RevealCountAppend(a[1..], oa[1..], b, ob, key);
    }
  }

  /**
   * Operations on other secrets leave the record under `key` as it was: present with
   * the same ciphertext and expiry when it was present, absent when it was absent.
   */
  lemma {:induction false} Untouched(store: Store, fernet: Fernet.Key, calls: seq<Call>, key: SecretId)
    requires Admissible(store, fernet, calls)
    requires NoCallOn(calls, key)
    ensures key in Replay(store, fernet, calls).final <==> key in store
    ensures key in store ==> Replay(store, fernet, calls).final[key] == store[key]
    decreases |calls|
  {
    if |calls| > 0 {
      assert calls[0].key != key;
      var first := Step(store, fernet, calls[0]);
      assert key in first.store <==> key in store;
      assert key in store ==> first.store[key] == store[key];
      TailKeepsAway(calls, key);
      Untouched(first.store, fernet, calls[1..], key);
    }
  }

  /**
   * Exactly-once: as long as no later save reuses `key`, the reads of `key` in any
   * sequence hand out a secret at most once, and never when `key` is not stored.
   */
  lemma {:induction false} AtMostOnce(store: Store, fernet: Fernet.Key, calls: seq<Call>, key: SecretId)
    requires Admissible(store, fernet, calls)
    requires NoSaveOf(calls, key)
    ensures RevealCount(calls, Replay(store, fernet, calls).outputs, key) <= if key in store then 1 else 0
    decreases |calls|
  {
    if |calls| > 0 {
      var first := Step(store, fernet, calls[0]);
      TailKeepsAway(calls, key);
      AtMostOnce(first.store, fernet, calls[1..], key);
      if calls[0].key == key {
        assert calls[0].Get?;
        assert key !in first.store;
      } else {
        assert key in first.store <==> key in store;
      }
    }
  }

  /**
   * A token that is not in the table and is never saved is never answered: every call
   * on it returns nothing.
   */
  lemma {:induction false} NeverStoredNeverAnswered(store: Store, fernet: Fernet.Key, calls: seq<Call>,
                                                    key: SecretId)
    requires Admissible(store, fernet, calls)
    requires key !in store && NoSaveOf(calls, key)
    ensures forall i :: 0 <= i < |calls| && calls[i].key == key ==> Replay(store, fernet, calls).outputs[i] == None
    decreases |calls|
  {
    if |calls| > 0 {
      var first := Step(store, fernet, calls[0]);
      assert key !in first.store;
      TailKeepsAway(calls, key);
      NeverStoredNeverAnswered(first.store, fernet, calls[1..], key);
      var r := Replay(store, fernet, calls);
      forall i | 0 <= i < |calls| && calls[i].key == key ensures r.outputs[i] == None {
        if i > 0 {
          assert calls[i] == calls[1..][i - 1];
        }
      }
    }
  }

  /** Reads that never name `key` reveal nothing under it, whatever they return. */
  lemma NoCallNoReveal(calls: seq<Call>, outputs: seq<Option<Fernet.Plaintext>>, key: SecretId)
    requires |outputs| == |calls| && NoCallOn(calls, key)
    ensures RevealCount(calls, outputs, key) == 0
  {
  }

  /**
   * A secret saved under `key` with an expiry that could be computed, and followed
   * only by calls on other secrets, is still stored as it was saved.
   */
  lemma {:induction false} SavedRecordSurvives(store: Store, fernet: Fernet.Key, save: Call, between: seq<Call>)
    requires save.Save? && Admissible(store, fernet, [save] + between)
    requires ExpiresAt(save.now, save.expireMinutes).Some?
    requires NoCallOn(between, save.key)
    ensures save.key in Replay(store, fernet, [save] + between).final
    ensures Replay(store, fernet, [save] + between).final[save.key] ==
            Record(Fernet.Encrypt(fernet, save.iv, save.secretText), save.now,
                   ExpiresAt(save.now, save.expireMinutes).value)
  {
    assert ([save] + between)[0] == save;
    assert ([save] + between)[1..] == between;
    var deposited := Deposit(store, fernet, save.key, save.secretText, save.expireMinutes, save.now, save.iv);
    assert Step(store, fernet, save).store == deposited;
    Untouched(deposited, fernet, between, save.key);
  }

  /** Neither a save nor calls on other UUIDs reveal the saved secret. */
  lemma SaveAndOthersRevealNothing(store: Store, fernet: Fernet.Key, save: Call, between: seq<Call>)
    requires save.Save? && Admissible(store, fernet, [save] + between)
    requires NoCallOn(between, save.key)
    ensures RevealCount([save] + between, Replay(store, fernet, [save] + between).outputs, save.key) == 0
  {
    var pre := [save] + between;
    assert pre[0] == save && pre[1..] == between;
    var rest := Replay(Step(store, fernet, save).store, fernet, between);
    assert Replay(store, fernet, pre).outputs == [None] + rest.outputs;
    NoCallNoReveal(between, rest.outputs, save.key);
    RevealCountAppend([save], [None], between, rest.outputs, save.key);
  }

  /**
   * The first read of a live record whose token decrypts hands out its text, and no
   * read after it, up to a save under the same UUID, hands out anything.
   */
  lemma {:induction false} LiveReadIsTheOnlyReveal(store: Store, fernet: Fernet.Key, key: SecretId,
                                                   secretText: Fernet.Plaintext, readAt: Timestamp, after: seq<Call>)
    requires key in store && Live(store[key], readAt)
    requires Fernet.Decrypt(fernet, store[key].ciphertext) == Some(secretText)
    requires Admissible(store, fernet, [Get(key, readAt)] + after)
    requires NoSaveOf(after, key)
    ensures Replay(store, fernet, [Get(key, readAt)] + after).outputs[0] == Some(secretText)
    ensures RevealCount([Get(key, readAt)] + after, Replay(store, fernet, [Get(key, readAt)] + after).outputs, key) == 1
  {
    var calls := [Get(key, readAt)] + after;
    assert calls[0] == Get(key, readAt);
    assert calls[1..] == after;
    var read := Consume(store, fernet, key, readAt);
    AtMostOnce(read.store, fernet, after, key);
  }

  /**
   * The whole life of one secret: saved under a fresh UUID with an expiry that could be
   * computed, left alone while other secrets come and go, read no later than its
   * expiry, then followed by anything that does not save under the same UUID. The read hands back the saved text, and it is
   * the only read that ever hands out that secret.
   */
  lemma ExactlyOnce(store: Store, fernet: Fernet.Key, key: SecretId, secretText: Fernet.Plaintext,
                    expireMinutes: int, savedAt: Timestamp, iv: Fernet.Iv,
                    between: seq<Call>, readAt: Timestamp, after: seq<Call>)
    requires Admissible(store, fernet,
                        [Save(key, secretText, expireMinutes, savedAt, iv)] + between + [Get(key, readAt)] + after)
    requires NoCallOn(between, key) && NoSaveOf(after, key)
    requires ExpiresAt(savedAt, expireMinutes).Some? && readAt <= ExpiresAt(savedAt, expireMinutes).value
    ensures Replay(store, fernet,
                   [Save(key, secretText, expireMinutes, savedAt, iv)] + between + [Get(key, readAt)] + after)
              .outputs[|between| + 1] == Some(secretText)
    ensures RevealCount([Save(key, secretText, expireMinutes, savedAt, iv)] + between + [Get(key, readAt)] + after,
                        Replay(store, fernet,
                               [Save(key, secretText, expireMinutes, savedAt, iv)] + between + [Get(key, readAt)] + after)
                          .outputs,
                        key) == 1
  {
    var save := Save(key, secretText, expireMinutes, savedAt, iv);
    var pre := [save] + between;
    var post := [Get(key, readAt)] + after;
    assert pre + post == [save] + between + [Get(key, readAt)] + after;
    ReplayAppend(store, fernet, pre, post);
    SavedRecordSurvives(store, fernet, save, between);
    var mid := Replay(store, fernet, pre);
    SaveAndOthersRevealNothing(store, fernet, save, between);
    Fernet.DecryptEncrypt(fernet, iv, secretText);
    LiveReadIsTheOnlyReveal(mid.final, fernet, key, secretText, readAt, after);
    RevealCountAppend(pre, mid.outputs, post, Replay(mid.final, fernet, post).outputs, key);
  }
}
