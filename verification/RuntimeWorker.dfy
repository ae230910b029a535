/**
  The locked sections of `ProvidedWorker`, each one atomic step of the protocol. The object remembers
  in ghost fields which requests were announced and which posts were taken, and every section keeps
  the account: a result is the answer to the request announced last, by its own generation.
 */
module RuntimeWorker {
  import opened Results
  import opened RuntimeProtocol

  ghost predicate Distinct(ids: seq<RequestId>) {
    forall i, j :: 0 <= i < j < |ids| ==> ids[i] != ids[j]
  }

  lemma DistinctSnoc(ids: seq<RequestId>, id: RequestId)
    ensures Distinct(ids + [id]) <==> Distinct(ids) && id !in ids
  {
    var all := ids + [id];
    if Distinct(all) {
      forall i, j | 0 <= i < j < |ids| ensures ids[i] != ids[j] {
        assert all[i] == ids[i] && all[j] == ids[j];
      }
      forall i | 0 <= i < |ids| ensures ids[i] != id {
        assert all[i] == ids[i] && all[|ids|] == id;
      }
    }
  }

  class ProvidedWorker {
    var generation: nat
    var stopping: bool
    var firstPoll: bool
    var initSettled: bool
    var initError: Payload
    var result: Slot
    var responseReady: bool
    var currentRequestId: Option<RequestId>

    /** The requests announced, the result posts taken and the init errors recorded so far. */
    ghost var armed: seq<RequestId>
    ghost var accepted: seq<Post>
    ghost var initPosts: set<InitPost>

    ghost function View(): Shared
      reads this
    {
      Shared(generation, stopping, firstPoll, initSettled, initError, result, responseReady, currentRequestId)
    }

    /** Where a result may come from. */
    ghost predicate Answers(slot: Slot)
      reads this
    {
      slot == Empty || (armed != [] &&
        var id := armed[|armed| - 1];
        if slot.Response? then Post(generation, id, AsResponse, slot.payload) in accepted
        else Post(generation, id, AsError, slot.payload) in accepted || InitPost(generation, slot.payload) in initPosts)
    }

    /** While no id is announced twice, none is answered twice and the open one is unanswered. */
    ghost predicate AnsweredOnce()
      reads this
    {
      Distinct(armed) ==>
        && (forall i, j :: 0 <= i < j < |accepted| ==> accepted[i].id != accepted[j].id)
        && (currentRequestId.Some? ==> forall p <- accepted :: p.id != currentRequestId.value)
    }

    ghost predicate Valid()
      reads this
    {
      && (currentRequestId.Some? ==> armed != [] && currentRequestId.value == armed[|armed| - 1])
      && (forall p <- accepted :: p.id in armed && p.gen <= generation)
      && Answers(result)
      && AnsweredOnce()
    }

    /** No post of any generation would be taken now. */
    ghost predicate Closed()
      reads this
    {
      forall g, id :: !Accepts(View(), g, id)
    }

    /** No poll of any generation would be admitted now. */
    ghost predicate Refusing()
      reads this
    {
      forall g :: !MarkFirstPoll(View(), g).1
    }

    /** The handlers of this generation can change nothing. */
    ghost predicate Deaf(gen: nat)
      reads this
    {
      && MarkFirstPoll(View(), gen) == (View(), false)
      && (forall payload :: RecordInitError(View(), gen, payload) == View())
      && (forall id, kind, payload :: RecordResult(View(), gen, id, kind, payload) == (View(), false))
    }

    constructor ()
      ensures Valid() && View() == FRESH && Closed() && Refusing()
      ensures armed == [] && accepted == [] && initPosts == {}
    {
      generation, stopping, firstPoll, initSettled := 0, true, false, false;
      initError, result, responseReady, currentRequestId := JsonNull, Empty, false, None;
      armed, accepted, initPosts := [], [], {};
    }

    /** A poll is let in exactly while its generation is live and not stopping; a refused one changes nothing. */
    method OnFirstPoll(gen: nat) returns (admitted: bool)
      requires Valid()
      modifies this
      ensures Valid() && armed == old(armed) && accepted == old(accepted) && initPosts == old(initPosts)
      ensures admitted <==> gen == old(generation) && !old(stopping)
      ensures admitted ==> initSettled && View() == old(View()).(firstPoll := true, initSettled := true)
      ensures !admitted ==> View() == old(View())
      ensures (View(), admitted) == MarkFirstPoll(old(View()), gen)
    {
      if gen != generation || stopping {
        return false;
      }
      firstPoll := true;
      initSettled := true;
      return true;
    }

    /** An init error of the live generation answers the request being served; any other is ignored. */
    method OnInitError(gen: nat, payload: Payload)
      requires Valid()
      modifies this
      ensures Valid() && armed == old(armed) && accepted == old(accepted)
      ensures gen != old(generation) ==> View() == old(View()) && initPosts == old(initPosts)
      ensures gen == old(generation) ==>
        && Closed() && initSettled && initError == payload && initPosts == old(initPosts) + {InitPost(gen, payload)}
        && (if old(currentRequestId).Some? then result == Error(payload) && responseReady else result == old(result))
      ensures View() == RecordInitError(old(View()), gen, payload)
    {
      if gen != generation {
        return;
      }
      initError := payload;
      initSettled := true;
      initPosts := initPosts + {InitPost(gen, payload)};
      if currentRequestId.Some? {
        currentRequestId := None;
        result := Error(payload);
        responseReady := true;
      }
    }

    /** A post is taken exactly when it answers the open request of the live generation, and then none is taken again. */
    method OnResult(gen: nat, id: RequestId, kind: Kind, payload: Payload) returns (taken: bool)
      requires Valid()
      modifies this
      ensures Valid() && armed == old(armed) && initPosts == old(initPosts)
      ensures taken <==> gen == old(generation) && old(currentRequestId) == Some(id) && id != ""
      ensures taken ==> Closed() && accepted == old(accepted) + [Post(gen, id, kind, payload)]
                        && result == (if kind == AsError then Error(payload) else Response(payload)) && responseReady
      ensures taken && Distinct(armed) ==> forall p <- old(accepted) :: p.id != id
      ensures !taken ==> View() == old(View()) && accepted == old(accepted)
      ensures (View(), taken) == RecordResult(old(View()), gen, id, kind, payload)
    {
      if gen != generation {
        return false;
      }
      if currentRequestId.None? || currentRequestId.value == "" || id != currentRequestId.value {
        return false;
      }
      currentRequestId := None;
      result := if kind == AsError then Error(payload) else Response(payload);
      responseReady := true;
      accepted := accepted + [Post(gen, id, kind, payload)];
      return true;
    }

    /** From here on the handlers of every earlier generation are without effect, and no request is open. */
    method StartGeneration()
      requires Valid()
      modifies this
      ensures Valid() && armed == old(armed) && accepted == old(accepted) && initPosts == old(initPosts)
      ensures generation == old(generation) + 1 && Closed() && MarkFirstPoll(View(), generation).1
      ensures forall g: nat :: g <= old(generation) ==> Deaf(g)
      ensures View() == NewGeneration(old(View()))
    {
      generation := generation + 1;
      stopping := false;
      firstPoll := false;
      initSettled := false;
      initError := JsonNull;
      result := Empty;
      responseReady := false;
      currentRequestId := None;
    }

    /** Exactly the posts for this request by the live generation will be taken now. */
    method ArmInvocation(id: RequestId)
      requires Valid()
      modifies this
      ensures Valid() && armed == old(armed) + [id] && accepted == old(accepted) && initPosts == old(initPosts)
      ensures forall g, i :: Accepts(View(), g, i) <==> g == generation && i == id && id != ""
      ensures generation == old(generation) && result == Empty && !responseReady
      ensures View() == Arm(old(View()), id)
    {
      result := Empty;
      responseReady := false;
      currentRequestId := Some(id);
      armed := armed + [id];
      DistinctSnoc(old(armed), id);
    }

    /** What is collected answers the request announced last; afterwards no post for it is taken. */
    method CollectResult() returns (slot: Slot, initFailed: bool)
      requires Valid()
      modifies this
      ensures Valid() && armed == old(armed) && accepted == old(accepted) && initPosts == old(initPosts)
      ensures Answers(slot) && slot == old(result)
      ensures initFailed <==> old(initError) != JsonNull
      ensures Closed() && result == Empty
      ensures View() == Collect(old(View()))
    {
      slot, result := result, Empty;
      currentRequestId := None;
      initFailed := initError != JsonNull;
    }

    /** Afterwards no poll is admitted and no post taken, until a new generation starts. */
    method StopGeneration()
      requires Valid()
      modifies this
      ensures Valid() && armed == old(armed) && accepted == old(accepted) && initPosts == old(initPosts)
      ensures Closed() && Refusing() && result == old(result)
      ensures View() == Teardown(old(View()))
    {
      stopping := true;
      currentRequestId := None;
    }

    /** Afterwards no poll is admitted, but an open request can still be answered. */
    method DiscardEnvironment()
      requires Valid()
      modifies this
      ensures Valid() && armed == old(armed) && accepted == old(accepted) && initPosts == old(initPosts)
      ensures Refusing() && result == old(result)
      ensures forall g, id :: Accepts(View(), g, id) <==> Accepts(old(View()), g, id)
      ensures View() == Discard(old(View()))
    {
      stopping := true;
    }
  }
}
