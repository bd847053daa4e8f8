/** The flags of the native runtime that decide when the game may save and load. */
module SaveLoadLock {

  datatype Stage = Idle | InvokingNewGame | Waiting | ProbingRuntime | Activating | StartFailed

  /** What the activation of a loaded world meets: the conditions before the lock is taken, the profile
      transaction (and whether its failure leaves the save modified), and the world synchronisation. */
  datatype Activation = Activation(ready: bool, applied: bool, requiresUnload: bool, synced: bool)

  /** What beginning a sandbox meets. */
  datatype Situation = Situation(
    known: bool, loaded: bool, hasPlayer: bool, capable: bool, possible: bool, accepted: bool, activation: Activation)

  /** How a waiting world start stands: past its deadline or refused by the probe, waiting on, or ready. */
  datatype Progress = Fails | Waits(probing: bool) | Ready(activation: Activation)

  datatype Call =
    | BeginSandbox(situation: Situation)
    | EndSandbox(hasError: bool)
    | CancelPreparation
    | RequestPreparation
    | Frame(epochChanged: bool, progress: Progress, menuOpens: bool)
    | EngineChanges(framework: bool, gameContext: bool, clientEntity: bool)

  /** Every answer of the engine is part of a call, and any answer may come. */
  class Runtime {
    var sandboxActive: bool
    var saveLoadLocked: bool
    var unloadPending: bool
    var mainMenuPending: bool
    var worldStart: bool              // a bootstrap is waiting for its world
    var stage: Stage
    var expectedTransition: bool
    var multiplayerRequested: bool
    var preparationActive: bool
    var framework: bool               // the engine's framework is there to be told
    var gameContext: bool             // and has a game
    var clientEntity: bool            // with the local player's entity
    var engineBlocks: bool            // what the engine was last told about saving and loading
    ghost var forgotten: bool         // the lock was last given up while the framework was gone
    ghost var disciplined: bool       // a sandbox was only ever begun while none was active

    ghost predicate Valid()
      reads this
    {
      && (saveLoadLocked ==> sandboxActive && engineBlocks)
      && (unloadPending ==> sandboxActive)
      && (engineBlocks && !saveLoadLocked <==> forgotten)
      && (disciplined && sandboxActive && !unloadPending ==> saveLoadLocked)
      && (disciplined && sandboxActive && worldStart ==> unloadPending || stage == StartFailed)
    }

    constructor ()
      ensures Valid() && !sandboxActive && !saveLoadLocked && !unloadPending && disciplined && !forgotten && !engineBlocks
    {
      sandboxActive, saveLoadLocked, unloadPending, mainMenuPending := false, false, false, false;
      worldStart, stage, expectedTransition := false, Idle, false;
      multiplayerRequested, preparationActive, framework, engineBlocks := false, false, false, false;
      gameContext, clientEntity := false, false;
      forgotten, disciplined := false, true;
    }

    /** Gives the lock up. The engine is told only if the framework is there. */
    method RestoreSaveLoad()
      modifies this`saveLoadLocked, this`engineBlocks, this`forgotten
      ensures !saveLoadLocked
      ensures !old(saveLoadLocked) ==> engineBlocks == old(engineBlocks) && forgotten == old(forgotten)
      ensures old(saveLoadLocked) ==> engineBlocks == (old(engineBlocks) && !framework) && forgotten == !framework
    {
      if !saveLoadLocked {
        return;
      }
      if framework {
        engineBlocks := false;
      }
      saveLoadLocked := false;
      forgotten := !framework;
    }

    /** What became of the lock: given up, it is forgotten exactly when the framework was gone; and one
        forgotten before stays so unless the lock was taken again and given up to the framework. */
    twostate predicate LockAccounted()
      reads this
    {
      && framework == old(framework) && gameContext == old(gameContext) && clientEntity == old(clientEntity)
      && (saveLoadLocked && !old(saveLoadLocked) ==> framework)
      && (!saveLoadLocked && old(saveLoadLocked) ==> forgotten == !framework)
      && (!saveLoadLocked && !old(saveLoadLocked) ==> forgotten == old(forgotten) || (framework && !forgotten))
    }

    /** Ends an unload once the world is gone; then nothing is locked and no sandbox is active. */
    method FinishNativeUnloadIfComplete() returns (ghost finished: bool)
      requires Valid()
      modifies this`unloadPending, this`sandboxActive, this`mainMenuPending, this`saveLoadLocked, this`engineBlocks, this`forgotten
      ensures Valid() && disciplined == old(disciplined) && worldStart == old(worldStart) && stage == old(stage)
      ensures mainMenuPending == (old(mainMenuPending) || finished)
      ensures finished <==> old(unloadPending) && (!framework || (!gameContext && !clientEntity))
      ensures finished ==> old(unloadPending) && !unloadPending && !sandboxActive && !saveLoadLocked && mainMenuPending
      ensures !finished ==> unloadPending == old(unloadPending) && sandboxActive == old(sandboxActive) && saveLoadLocked == old(saveLoadLocked)
      ensures LockAccounted()
    {
      if !unloadPending {
        return false;
      }
      if framework && (gameContext || clientEntity) {
        return false;
      }
      RestoreSaveLoad();
      unloadPending := false;
      sandboxActive := false;
      mainMenuPending := true;
      finished := true;
    }

    method BeginNativeUnload()
      requires saveLoadLocked ==> engineBlocks
      requires engineBlocks && !saveLoadLocked <==> forgotten
      modifies this`unloadPending, this`sandboxActive, this`mainMenuPending, this`saveLoadLocked, this`engineBlocks, this`forgotten
      ensures Valid() && disciplined == old(disciplined) && worldStart == old(worldStart) && stage == old(stage)
      ensures sandboxActive == unloadPending && (!sandboxActive ==> !saveLoadLocked)
      ensures unloadPending <==> framework && (gameContext || clientEntity)
      ensures mainMenuPending == (old(mainMenuPending) || !unloadPending)
      ensures saveLoadLocked == (old(saveLoadLocked) && unloadPending)
      ensures LockAccounted()
    {
      unloadPending := true;
      sandboxActive := true;
      ghost var _ := FinishNativeUnloadIfComplete();
    }

    /** Turns the loaded world into a sandbox. A failure after the lock was taken either unlocks or
        leads into an unload. */
    method ActivateLoadedSandbox(met: Activation) returns (started: bool)
      requires Valid() && (disciplined ==> !sandboxActive || unloadPending)
      modifies this
      ensures Valid() && disciplined == old(disciplined)
      ensures started <==> framework && met.ready && met.applied && met.synced
      ensures started ==> sandboxActive && saveLoadLocked && !worldStart && stage == Idle && unloadPending == old(unloadPending)
      ensures !started ==> worldStart == old(worldStart) && stage == old(stage)
      ensures started ==> !expectedTransition
      ensures !(framework && met.ready) ==>
                sandboxActive == old(sandboxActive) && saveLoadLocked == old(saveLoadLocked) && unloadPending == old(unloadPending)
      ensures framework && met.ready && !met.applied && !met.requiresUnload ==>
                sandboxActive == old(sandboxActive) && unloadPending == old(unloadPending) && !saveLoadLocked && !engineBlocks
      ensures framework && met.ready && !started && (met.applied || met.requiresUnload) ==>
                sandboxActive == unloadPending == saveLoadLocked == (gameContext || clientEntity)
      ensures LockAccounted()
    {
      if !met.ready || !framework {
        return false;
      }
      engineBlocks := true;
      saveLoadLocked := true;
      forgotten := false;
      if !met.applied {
        if met.requiresUnload {
          BeginNativeUnload();
        } else {
          RestoreSaveLoad();
        }
        return false;
      }
      if !met.synced {
        BeginNativeUnload();
        return false;
      }
      sandboxActive := true;
      worldStart, stage := false, Idle;
      expectedTransition := false;
      started := true;
    }

    method FailNativeWorldStart()
      requires Valid()
      modifies this`stage, this`expectedTransition
      ensures Valid() && stage == StartFailed && !expectedTransition
    {
      stage := StartFailed;
      expectedTransition := false;
    }

    method BeginNativeWorldStart(possible: bool, accepted: bool) returns (started: bool)
      requires Valid() && (disciplined ==> !sandboxActive)
      modifies this`worldStart, this`stage, this`expectedTransition
      ensures Valid()
      ensures started <==> possible && !old(worldStart) && accepted
      ensures started ==> worldStart && stage == Waiting && expectedTransition
      ensures !possible || old(worldStart) ==>
                worldStart == old(worldStart) && stage == old(stage) && expectedTransition == old(expectedTransition)
      ensures possible && !old(worldStart) && !accepted ==> worldStart && stage == StartFailed && !expectedTransition
    {
      if !possible || worldStart {
        return false;
      }
      worldStart, stage := true, InvokingNewGame;
      expectedTransition := true;
      if !accepted {
        FailNativeWorldStart();
        return false;
      }
      stage := Waiting;
      started := true;
    }

    method Begin(met: Situation) returns (started: bool)
      requires Valid()
      modifies this
      ensures Valid() && disciplined == (old(disciplined) && !old(sandboxActive))
      ensures started <==>
                && met.known
                && if met.hasPlayer
                   then met.loaded && (!met.capable || (framework && met.activation.ready && met.activation.applied && met.activation.synced))
                   else met.possible && !old(worldStart) && met.accepted
      ensures started && met.hasPlayer && met.capable ==> sandboxActive && saveLoadLocked && !worldStart
      ensures started && met.hasPlayer && !met.capable ==> worldStart && stage == ProbingRuntime
      ensures started && !met.hasPlayer ==> worldStart && stage == Waiting && expectedTransition
      ensures !met.hasPlayer || !met.capable ==>
                sandboxActive == old(sandboxActive) && saveLoadLocked == old(saveLoadLocked) && unloadPending == old(unloadPending)
      ensures LockAccounted()
    {
      disciplined := disciplined && !sandboxActive;
      if !met.known {
        return false;
      }
      if met.loaded && met.hasPlayer {
        if met.capable {
          started := ActivateLoadedSandbox(met.activation);
          return;
        }
        worldStart, stage := true, ProbingRuntime;
        return true;
      }
      if met.hasPlayer {
        return false;
      }
      started := BeginNativeWorldStart(met.possible, met.accepted);
    }

    /** Drives a waiting start on. It fails for good, waits on, or ends in an active locked sandbox. */
    method AdvanceNativeWorldStart(progress: Progress)
      requires Valid()
      modifies this
      ensures Valid() && disciplined == old(disciplined)
      ensures !old(worldStart) || old(stage) in {StartFailed, Activating} ==>
                worldStart == old(worldStart) && stage == old(stage) && expectedTransition == old(expectedTransition)
                && sandboxActive == old(sandboxActive) && saveLoadLocked == old(saveLoadLocked) && unloadPending == old(unloadPending)
      ensures old(worldStart) && old(stage) !in {StartFailed, Activating} ==>
                match progress
                case Fails =>
                  worldStart && stage == StartFailed && !expectedTransition
                  && sandboxActive == old(sandboxActive) && saveLoadLocked == old(saveLoadLocked) && unloadPending == old(unloadPending)
                case Waits(probing) =>
                  worldStart && stage == (if probing then ProbingRuntime else Waiting)
                  && sandboxActive == old(sandboxActive) && saveLoadLocked == old(saveLoadLocked) && unloadPending == old(unloadPending)
                case Ready(met) =>
                  if framework && met.ready && met.applied && met.synced
                  then !worldStart && stage == Idle && sandboxActive && saveLoadLocked && !expectedTransition
                  else worldStart && stage == StartFailed && !expectedTransition
      ensures LockAccounted()
    {
      if !worldStart || stage == StartFailed || stage == Activating {
        return;
      }
      match progress {
        case Fails =>
          FailNativeWorldStart();
        case Waits(probing) =>
          stage := if probing then ProbingRuntime else Waiting;
        case Ready(met) =>
          stage := Activating;
          var started := ActivateLoadedSandbox(met);
          if !started {
            FailNativeWorldStart();
          }
      }
    }

    method Cancel()
      requires Valid()
      modifies this`multiplayerRequested, this`preparationActive, this`expectedTransition, this`worldStart, this`stage
      ensures Valid() && disciplined == old(disciplined) && !multiplayerRequested && !preparationActive
      ensures sandboxActive == old(sandboxActive) && saveLoadLocked == old(saveLoadLocked) && unloadPending == old(unloadPending)
      ensures old(multiplayerRequested) || old(preparationActive) ==> !worldStart && stage == Idle && !expectedTransition
      ensures LockAccounted()
    {
      var requested := multiplayerRequested;
      multiplayerRequested := false;
      if !requested && !preparationActive {
        return;
      }
      preparationActive := false;
      expectedTransition := false;
      worldStart, stage := false, Idle;
    }

    method End(hasError: bool)
      requires Valid()
      modifies this
      ensures Valid() && disciplined == old(disciplined)
      ensures var present := framework && (gameContext || clientEntity);
              if old(unloadPending) || (!old(sandboxActive) && !old(worldStart) && !(hasError && present))
              then sandboxActive == old(sandboxActive) && saveLoadLocked == old(saveLoadLocked) && unloadPending == old(unloadPending)
              else
                && sandboxActive == unloadPending == present && saveLoadLocked == (old(saveLoadLocked) && present)
                && !worldStart && stage == Idle && !expectedTransition
      ensures hasError && !old(unloadPending) && !(framework && (gameContext || clientEntity)) ==> mainMenuPending
      ensures LockAccounted()
    {
      if unloadPending {
        return;
      }
      if !sandboxActive && !worldStart {
        if !hasError {
          return;
        }
        if !framework || (!gameContext && !clientEntity) {
          mainMenuPending := true;
          stage := Idle;
          Cancel();
          return;
        }
      }
      worldStart, stage := false, Idle;
      expectedTransition := false;
      BeginNativeUnload();
    }

    /** The engine replaced the world. Unless the runtime asked for that or is unloading anyway, the sandbox is over. */
    method InvalidateEpoch()
      requires Valid()
      modifies this
      ensures Valid() && disciplined == old(disciplined)
      ensures !unloadPending && !expectedTransition ==> !sandboxActive && !saveLoadLocked
      ensures unloadPending || expectedTransition ==> sandboxActive == old(sandboxActive) && saveLoadLocked == old(saveLoadLocked)
      ensures unloadPending == old(unloadPending) && expectedTransition == old(expectedTransition)
      ensures multiplayerRequested == (old(multiplayerRequested) && expectedTransition) && !preparationActive
      ensures LockAccounted()
    {
      if !expectedTransition {
        multiplayerRequested := false;
      }
      if !unloadPending && !expectedTransition {
        RestoreSaveLoad();
      }
      preparationActive := false;
      if !unloadPending && !expectedTransition {
        sandboxActive := false;
      }
    }

    method OnFrame(epochChanged: bool, progress: Progress, menuOpens: bool)
      requires Valid()
      modifies this
      ensures Valid() && disciplined == old(disciplined)
      ensures unloadPending ==> framework && (gameContext || clientEntity)
      ensures menuOpens ==> !mainMenuPending
      ensures LockAccounted()
    {
      if epochChanged {
        InvalidateEpoch();
      }
      AdvanceNativeWorldStart(progress);
      ghost var _ := FinishNativeUnloadIfComplete();
      if mainMenuPending && menuOpens {
        mainMenuPending := false;
      }
    }

    /** Any run of calls, whatever the engine answers. */
    method Serve(calls: seq<Call>)
      requires Valid()
      modifies this
      ensures Valid()
    {
      for i := 0 to |calls|
        invariant Valid()
      {
        match calls[i] {
          case BeginSandbox(situation) =>
            var _ := Begin(situation);
          case EndSandbox(hasError) =>
            End(hasError);
          case CancelPreparation =>
            Cancel();
          case RequestPreparation =>
            multiplayerRequested, preparationActive := true, true;
          case Frame(epochChanged, progress, menuOpens) =>
            OnFrame(epochChanged, progress, menuOpens);
          case EngineChanges(framework, gameContext, clientEntity) =>
            this.framework, this.gameContext, this.clientEntity := framework, gameContext, clientEntity;
        }
      }
    }
  }

  /** A run that leaves the engine blocked: the framework goes while a sandbox is locked, and the sandbox ends. */
  method EndWithoutFramework(runtime: Runtime)
    requires runtime.Valid() && runtime.sandboxActive && runtime.saveLoadLocked && !runtime.unloadPending
    modifies runtime
    ensures runtime.Valid() && !runtime.sandboxActive && !runtime.saveLoadLocked && runtime.engineBlocks
  {
    runtime.framework := false;
    runtime.End(false);
  }
}
