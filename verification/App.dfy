/** The application object (src/app/app.c): it owns a controller, a relay output and a flash,
and is proved to do what `AppModel` says. */
module App {
  import opened Words
  import opened ControlModel
  import opened Storage
  import opened AppModel
  import Controller

  class App {
    const platform: Controller.Platform
    const ctrl: Controller.Controller
    const store: Flash
    var cfg: DeviceConfig
    var nextSample: u32
    var relayPrev: bool

    ghost predicate Valid()
      reads this, ctrl, ctrl.filter, ctrl.filter.buf, store
    {
      && ctrl.Valid() && store.Valid() && ctrl.platform == platform
      && (ctrl.filter.buf as object) != store.mem
    }

    ghost function View(): AppState
      requires Valid()
      reads this, ctrl, ctrl.filter, ctrl.filter.buf, platform, store, store.mem
    {
      AppState(ctrl.NodeView(), platform.relay, cfg, nextSample, relayPrev, store.mem[..], store.present)
    }

    /** app_init */
    constructor (platform: Controller.Platform, store: Flash)
      requires store.Valid()
      modifies platform`relay
      ensures Valid() && this.platform == platform && this.store == store
      ensures fresh(ctrl) && fresh(ctrl.filter) && fresh(ctrl.filter.buf)
      ensures View() == Startup(store.mem[..], store.present, platform.backup)
    {
      this.platform, this.store := platform, store;
      var loaded := store.Load();
      cfg := loaded.cfg;
      ctrl := new Controller.Controller(platform, ControlConfig(loaded.cfg));
      nextSample := 0;
      relayPrev := false;
      new;
      InitialRelayIsOff(cfg);
      relayPrev := ctrl.relayOn;
      platform.RelaySet(relayPrev);
    }

    /** The reset cause is judged once the application is set up (src/app/main_mcu.c:280). */
    method JudgeReset(cause: ResetCause)
      requires Valid()
      modifies ctrl, ctrl.filter, ctrl.filter.buf, platform`backup
      ensures Valid() && View() == old(View()).(node := Boot(DEFAULTS, cause, old(platform.backup)))
    {
      ctrl.InitExtended(DEFAULTS, cause);
    }

    /** app_task; `r` is what the sensor gives if it is read. */
    method Task(now: u32, r: Reading) returns (processed: bool, err: Err)
      requires Valid()
      modifies this, ctrl, ctrl.filter, ctrl.filter.buf, platform
      ensures Valid() && Processed(View(), processed, err) == AppModel.Task(old(View()), now, r)
    {
      if ToI32(now - nextSample) < 0 {
        return false, ErrOk;
      }
      Reschedule(now);
      err := ctrl.Update(Judged(r));
      DriveOutput(ctrl.relayOn);
      processed := true;
    }

    method Reschedule(now: u32)
      requires Valid()
      modifies this`nextSample
      ensures nextSample == NextSample(old(nextSample), ctrl.cfg.period, now)
    {
      nextSample := Wrap(nextSample + ctrl.cfg.period);
      if ToI32(nextSample - now) < 0 {
        nextSample := Wrap(now + ctrl.cfg.period);
      }
    }

    method DriveOutput(relay: bool)
      modifies this`relayPrev, platform`relay
      ensures relayPrev == relay
      ensures platform.relay == if relay != old(relayPrev) then relay else old(platform.relay)
    {
      if relay != relayPrev {
        platform.RelaySet(relay);
        relayPrev := relay;
      }
    }

    /** app_update_config */
    method UpdateConfig(c: DeviceConfig) returns (err: Err)
      requires Valid()
      modifies this`cfg, ctrl, ctrl.filter, ctrl.filter.buf, store`writes, store.mem
      ensures Valid() && Applied(View(), err) == AppModel.UpdateConfig(old(View()), c)
    {
      var ok := Validate(c);
      if !ok {
        return ErrInvalidArg;
      }
      cfg := c;
      err := store.Save(cfg);
      if err != ErrOk {
        return err;
      }
      ctrl.Init(ControlConfig(cfg));
    }

    /** The brown-out interrupt, between two other calls, if the controller it names is this one. */
    method BrownOut()
      requires Valid()
      modifies ctrl, platform`relay
      ensures Valid() && View() == Fail(old(View()))
    {
      ctrl.ForceEmergencyShutdown();
    }
  }
}
