/** Whether biometrics are on only together with MFA: not always, and here is exactly when. */
module Biometrics {
  import opened JsText
  import opened Option
  import opened Users
  import opened AuthEvents
  import opened MfaProvenance
  import S = Sessions

  predicate GoesWithMfa(u: User) { u.biometricEnabled ==> u.mfaEnabled }

  /** The event turns this user's MFA off. */
  predicate EndsMfa(ev: Event, id: Id) { (ev.MfaDisabled? || ev.ResetByAdmin?) && ev.user == id }

  lemma ChangeKeepsMfa(u: User, ev: Event)
    requires GoesWithMfa(u) && (ev.BiometricEnabled? ==> u.mfaEnabled)
    ensures GoesWithMfa(Changed(u, ev)) <==> !((ev.MfaDisabled? || ev.ResetByAdmin?) && u.biometricEnabled)
  {
  }

  /** An event keeps it for a user, if and only if it does not turn MFA off while the user's
      biometrics are on. */
  lemma StepKeepsMfa(w: World, ev: Event, compare: S.Compare, id: Id)
    requires Enabled(w, ev, compare) && id in w.users && GoesWithMfa(w.users[id])
    ensures id in Apply(w, ev).users
    ensures GoesWithMfa(Apply(w, ev).users[id]) <==> !(EndsMfa(ev, id) && w.users[id].biometricEnabled)
  {
    if HasUser(ev) && ev.user == id { ChangeKeepsMfa(w.users[id], ev); }
  }

  // ------------------------------------------------------------------------- whole runs

  /** The last of the user's requests about biometrics turned them on. */
  predicate BiometricOn(evs: seq<Event>, id: Id) {
    evs != [] && (
      var last := evs[|evs| - 1];
      if (last.BiometricEnabled? || last.BiometricDisabled?) && last.user == id then last.BiometricEnabled?
      else BiometricOn(evs[..|evs| - 1], id))
  }

  /** The last of the user's requests about MFA, or of the admin's resets, turned it on. */
  predicate MfaOn(evs: seq<Event>, id: Id) {
    evs != [] && (
      var last := evs[|evs| - 1];
      if (last.SetupVerified? || last.MfaDisabled? || last.ResetByAdmin?) && last.user == id then last.SetupVerified?
      else MfaOn(evs[..|evs| - 1], id))
  }

  /** What the table says of a user, and the requests so far. */
  predicate Told(users: Table, evs: seq<Event>, id: Id) {
    if id in users then users[id].biometricEnabled == BiometricOn(evs, id) && users[id].mfaEnabled == MfaOn(evs, id)
    else !BiometricOn(evs, id) && !MfaOn(evs, id)
  }

  lemma SwitchStep(u: User, ev: Event)
    ensures Changed(u, ev).biometricEnabled
         == if ev.BiometricEnabled? || ev.BiometricDisabled? then ev.BiometricEnabled? else u.biometricEnabled
    ensures Changed(u, ev).mfaEnabled
         == if ev.SetupVerified? || ev.MfaDisabled? || ev.ResetByAdmin? then ev.SetupVerified? else u.mfaEnabled
  {
  }

  lemma ToldStep(w: World, before: seq<Event>, ev: Event, compare: S.Compare, id: Id)
    requires Told(w.users, before, id) && Enabled(w, ev, compare)
    ensures Told(Apply(w, ev).users, before + [ev], id)
  {
    assert (before + [ev])[..|before|] == before;
    if id in w.users { SwitchStep(w.users[id], ev); }
  }

  lemma {:induction false} RunTold(evs: seq<Event>, compare: S.Compare, clock: Time, id: Id)
    requires Legal(EMPTY, evs, compare, clock)
    ensures Told(After(EMPTY, evs).users, evs, id)
  {
    if evs != [] {
      var before, ev := evs[..|evs| - 1], evs[|evs| - 1];
      RunTold(before, compare, clock, id);
      ToldStep(After(EMPTY, before), before, ev, compare, id);
      assert evs == before + [ev];
    }
  }

  /** After any run, a user's biometrics go with MFA if and only if they were not last turned
      on, or MFA was. */
  lemma BiometricsGoWithMfaIff(evs: seq<Event>, compare: S.Compare, clock: Time, id: Id)
    requires Legal(EMPTY, evs, compare, clock) && id in After(EMPTY, evs).users
    ensures GoesWithMfa(After(EMPTY, evs).users[id]) <==> (BiometricOn(evs, id) ==> MfaOn(evs, id))
  {
    RunTold(evs, compare, clock, id);
  }

  /** The `k`-th request turned MFA off while the user's biometrics were on. */
  predicate BreaksAt(evs: seq<Event>, k: nat, id: Id)
    requires k < |evs|
  {
    EndsMfa(evs[k], id) && BiometricOn(evs[..k], id)
  }

  /** Biometrics went with MFA after every part of the run. */
  predicate AlwaysWithMfa(evs: seq<Event>, id: Id) {
    (BiometricOn(evs, id) ==> MfaOn(evs, id)) && (evs == [] || AlwaysWithMfa(evs[..|evs| - 1], id))
  }

  predicate NeverBroken(evs: seq<Event>, id: Id) { forall k | 0 <= k < |evs| :: !BreaksAt(evs, k, id) }

  /** They did so throughout a run, if and only if MFA was never turned off while they were on. */
  lemma {:induction false} AlwaysWithMfaIff(evs: seq<Event>, compare: S.Compare, clock: Time, id: Id)
    requires Legal(EMPTY, evs, compare, clock)
    ensures AlwaysWithMfa(evs, id) <==> NeverBroken(evs, id)
  {
    if evs != [] {
      var before := evs[..|evs| - 1];
      AlwaysWithMfaIff(before, compare, clock, id);
      BrokenLast(evs, id);
      if AlwaysWithMfa(before, id) {
        RunTold(before, compare, clock, id);
        LastSwitch(After(EMPTY, before), evs, compare, id);
      }
    }
  }

  lemma BrokenLast(evs: seq<Event>, id: Id)
    requires evs != []
    ensures NeverBroken(evs, id) <==> NeverBroken(evs[..|evs| - 1], id) && !BreaksAt(evs, |evs| - 1, id)
  {
    var n := |evs| - 1;
    forall k | 0 <= k < n ensures BreaksAt(evs[..n], k, id) <==> BreaksAt(evs, k, id) {
      assert evs[..n][..k] == evs[..k];
    }
  }

  /** One more event, when biometrics went with MFA before it. */
  lemma LastSwitch(w: World, evs: seq<Event>, compare: S.Compare, id: Id)
    requires evs != [] && Enabled(w, evs[|evs| - 1], compare) && Told(w.users, evs[..|evs| - 1], id)
    requires BiometricOn(evs[..|evs| - 1], id) ==> MfaOn(evs[..|evs| - 1], id)
    ensures (BiometricOn(evs, id) ==> MfaOn(evs, id)) <==> !BreaksAt(evs, |evs| - 1, id)
  {
  }

  // -------------------------------------------------------- the device that is presented

  /** The device the user's requests have left in the row: the one last given, unless it was
      taken away since. */
  function DeviceGiven(evs: seq<Event>, id: Id): Option<Text> {
    if evs == [] then None
    else
      var last, before := evs[|evs| - 1], DeviceGiven(evs[..|evs| - 1], id);
      if last.BiometricEnabled? && last.user == id then
        match last.device
        case Absent => before
        case NullField => None
        case Given(text) => Some(text)
      else if last.BiometricDisabled? && last.user == id then None
      else before
  }

  predicate DeviceTold(users: Table, evs: seq<Event>, id: Id) {
    DeviceGiven(evs, id) == if id in users then users[id].deviceBiometricId else None
  }

  lemma DeviceStep(u: User, ev: Event)
    ensures Changed(u, ev).deviceBiometricId
         == if ev.BiometricDisabled? then None
            else if ev.BiometricEnabled? && ev.device.Given? then Some(ev.device.text)
            else if ev.BiometricEnabled? && ev.device.NullField? then None
            else u.deviceBiometricId
  {
  }

  lemma DeviceToldStep(w: World, before: seq<Event>, ev: Event, compare: S.Compare, id: Id)
    requires DeviceTold(w.users, before, id) && Enabled(w, ev, compare)
    ensures DeviceTold(Apply(w, ev).users, before + [ev], id)
  {
    assert (before + [ev])[..|before|] == before;
    if id in w.users { DeviceStep(w.users[id], ev); }
  }

  lemma {:induction false} RunDeviceTold(evs: seq<Event>, compare: S.Compare, clock: Time, id: Id)
    requires Legal(EMPTY, evs, compare, clock)
    ensures DeviceTold(After(EMPTY, evs).users, evs, id)
  {
    if evs != [] {
      var before, ev := evs[..|evs| - 1], evs[|evs| - 1];
      RunDeviceTold(before, compare, clock, id);
      DeviceToldStep(After(EMPTY, before), before, ev, compare, id);
      assert evs == before + [ev];
    }
  }

  /** The device given is from one of the user's requests, with no later one to change it. */
  lemma {:induction false} DeviceIsFrom(evs: seq<Event>, id: Id)
    requires DeviceGiven(evs, id).Some?
    ensures exists i | 0 <= i < |evs| :: GaveDevice(evs, i, id, DeviceGiven(evs, id).value)
  {
    var n := |evs| - 1;
    var last := evs[n];
    if last.BiometricEnabled? && last.user == id && last.device.Given? {
      assert GaveDevice(evs, n, id, last.device.text);
    } else {
      DeviceIsFrom(evs[..n], id);
      var i :| 0 <= i < n && GaveDevice(evs[..n], i, id, DeviceGiven(evs, id).value);
      assert evs[..n][i] == evs[i] && forall k | i < k < n :: evs[..n][k] == evs[k];
      assert GaveDevice(evs, i, id, DeviceGiven(evs, id).value);
    }
  }

  /** The `i`-th request gave the user this device, and none since has given another, erased
      it or turned biometrics off. */
  predicate GaveDevice(evs: seq<Event>, i: nat, id: Id, device: Text)
    requires i < |evs|
  {
    && evs[i].BiometricEnabled? && evs[i].user == id && evs[i].device == Given(device)
    && forall k | i < k < |evs| ::
         !(evs[k].BiometricDisabled? && evs[k].user == id)
         && !(evs[k].BiometricEnabled? && evs[k].user == id && !evs[k].device.Absent?)
  }

  /** A device that was let in is the one the user last gave, while biometrics were on. */
  lemma BiometricLoginHasItsDevice(evs: seq<Event>, compare: S.Compare, clock: Time, j: nat)
    requires Legal(EMPTY, evs, compare, clock)
    requires j < |evs| && evs[j].MfaDone? && evs[j].endpoint.BiometricDevice?
    ensures BiometricOn(evs[..j], evs[j].user)
    ensures exists i | 0 <= i < j :: GaveDevice(evs[..j], i, evs[j].user, evs[j].endpoint.device)
  {
    var before, ev := evs[..j], evs[j];
    LegalPrefix(EMPTY, evs, compare, clock, j);
    RunDeviceTold(before, compare, clock, ev.user);
    RunTold(before, compare, clock, ev.user);
    DeviceIsFrom(before, ev.user);
  }

  /** And a device that was not let in is not that one, or biometrics were off. */
  lemma RefusedDeviceIsAnother(evs: seq<Event>, compare: S.Compare, clock: Time, j: nat)
    requires Legal(EMPTY, evs, compare, clock)
    requires j < |evs| && evs[j].MfaWrong? && evs[j].endpoint.BiometricDevice?
    ensures BiometricOn(evs[..j], evs[j].user) ==> DeviceGiven(evs[..j], evs[j].user) != Some(evs[j].endpoint.device)
  {
    LegalPrefix(EMPTY, evs, compare, clock, j);
    RunDeviceTold(evs[..j], compare, clock, evs[j].user);
    RunTold(evs[..j], compare, clock, evs[j].user);
  }
}
