/**
 Saving the plugin's settings: the decision in `validateAndSave`
 (J_IPX800.js:94-108) and the five `ipx_Set*` handlers that call it
 (J_IPX800.js:213-227).

 The device variables live in a map keyed by device number, service and
 variable name. Persisting a value (`saveVar`, which talks to the host) is
 modelled as one update of that map; the colour change and the alert on a
 refused value are display only and do not appear.
 */
module Settings {
  import opened Text
  import opened JsString
  import opened IpAddress
  import opened CsvLists
  import opened OutputRelays

  /** The plugin's service id, `ipx800_Svs` (J_IPX800.js:5). */
  const ServiceId: string := "urn:upnp-org:serviceId:IPX8001"

  datatype Option<T> = None | Some(value: T)

  /** The validators a handler can pass to `validateAndSave`. */
  datatype Check = IpCheck | IntCheck | OutputListCheck | InputListCheck | AnalogListCheck

  function Accepts(c: Check, v: string): bool {
    match c
    case IpCheck => GoodIp(v)
    case IntCheck => GoodInt(v)
    case OutputListCheck => GoodCsvOutput(v)
    case InputListCheck => GoodCsvInput(v)
    case AnalogListCheck => GoodCsvAnalog(v)
  }

  /** Which device variable a value is saved to. */
  datatype VarKey = VarKey(device: nat, service: string, name: string)

  type Store = map<VarKey, string>

  /** The store after the call, and whether the value was saved. */
  datatype Outcome = Outcome(store: Store, saved: bool)

  /**
   `validateAndSave`: with no validator, or one that accepts the value, the
   value is saved under the plugin's service; otherwise nothing changes.
   */
  function ValidateAndSave(store: Store, device: nat, name: string, value: string, check: Option<Check>): (r: Outcome)
    ensures r.saved <==> (check.None? || Accepts(check.value, value))
    ensures r.saved ==> VarKey(device, ServiceId, name) in r.store && r.store[VarKey(device, ServiceId, name)] == value
    ensures forall k :: k != VarKey(device, ServiceId, name) ==> (k in r.store <==> k in store)
    ensures forall k :: k in store && k != VarKey(device, ServiceId, name) ==> r.store[k] == store[k]
    ensures !r.saved ==> r.store == store
  {
    if check.None? || Accepts(check.value, value) then
      Outcome(store[VarKey(device, ServiceId, name) := value], true)
    else
      Outcome(store, false)
  }

  /** The five `ipx_Set*` handlers. */
  datatype Setter = SetIpAddress | SetOutputRelays | SetInputRelays | SetAnalogInputs | SetUpdateFrequency

  /** The validator each handler passes. */
  function CheckOf(s: Setter): Check {
    match s
    case SetIpAddress => IpCheck
    case SetOutputRelays => OutputListCheck
    case SetInputRelays => InputListCheck
    case SetAnalogInputs => AnalogListCheck
    case SetUpdateFrequency => IntCheck
  }

  /** The three list handlers trim the value first; the address and frequency handlers do not. */
  predicate Trims(s: Setter) {
    s == SetOutputRelays || s == SetInputRelays || s == SetAnalogInputs
  }

  /** The value a handler hands on to `validateAndSave`. */
  function Prepared(s: Setter, value: string): string {
    if Trims(s) then Trim(value) else value
  }

  /** A handler: prepare the value, then validate and save it with the handler's validator. */
  function Set(store: Store, s: Setter, device: nat, name: string, value: string): (r: Outcome)
    ensures r.saved <==> Accepts(CheckOf(s), Prepared(s, value))
    ensures r.saved ==> r.store == store[VarKey(device, ServiceId, name) := Prepared(s, value)]
    ensures !r.saved ==> r.store == store
  {
    ValidateAndSave(store, device, name, Prepared(s, value), Some(CheckOf(s)))
  }

  /** The variable name the settings panel passes to each handler (J_IPX800.js:155-160). */
  function PanelName(s: Setter): string {
    match s
    case SetIpAddress => "IpxIpAddress"
    case SetOutputRelays => "OutputRelays"
    case SetInputRelays => "InputRelays"
    case SetAnalogInputs => "AnalogInputs"
    case SetUpdateFrequency => "UpdateFrequency"
  }

  /** The panel's handler for a variable, the inverse of `PanelName`. */
  function SetterFor(name: string): (r: Option<Setter>)
    ensures r.Some? ==> PanelName(r.value) == name
  {
    if name == "IpxIpAddress" then Some(SetIpAddress)
    else if name == "OutputRelays" then Some(SetOutputRelays)
    else if name == "InputRelays" then Some(SetInputRelays)
    else if name == "AnalogInputs" then Some(SetAnalogInputs)
    else if name == "UpdateFrequency" then Some(SetUpdateFrequency)
    else None
  }

  /** Each panel variable has exactly one handler. */
  lemma SetterForPanelName(s: Setter)
    ensures SetterFor(PanelName(s)) == Some(s)
  {
  }

  /**
   What the handlers maintain: every panel variable of `device` that is
   stored holds a value its handler's validator accepts.
   */
  predicate Consistent(store: Store, device: nat) {
    forall s: Setter :: VarKey(device, ServiceId, PanelName(s)) in store ==>
      Accepts(CheckOf(s), store[VarKey(device, ServiceId, PanelName(s))])
  }

  /** The panel's handlers keep the store consistent, for every device. */
  lemma SetKeepsConsistent(store: Store, device: nat, s: Setter, target: nat, value: string)
    requires Consistent(store, device)
    ensures Consistent(Set(store, s, target, PanelName(s), value).store, device)
  {
    var r := Set(store, s, target, PanelName(s), value);
    forall s' | VarKey(device, ServiceId, PanelName(s')) in r.store
      ensures Accepts(CheckOf(s'), r.store[VarKey(device, ServiceId, PanelName(s'))])
    {
      if r.saved && target == device && s' == s {
      } else {
        SetterForPanelName(s');
        SetterForPanelName(s);
        assert VarKey(device, ServiceId, PanelName(s')) != VarKey(target, ServiceId, PanelName(s)) || !r.saved;
      }
    }
  }

  /** A refused value leaves every device variable as it was. */
  lemma RefusedLeavesStore(store: Store, s: Setter, device: nat, name: string, value: string)
    requires !Accepts(CheckOf(s), Prepared(s, value))
    ensures Set(store, s, device, name, value) == Outcome(store, false)
  {
  }

  /** Running a handler twice with the same value changes nothing more. */
  lemma SetIdempotent(store: Store, s: Setter, device: nat, name: string, value: string)
    ensures var r := Set(store, s, device, name, value);
            Set(r.store, s, device, name, value) == r
  {
  }

  /** The list handlers store the trimmed value, so a stored list never has surrounding white space. */
  lemma ListSettersStoreTrimmed(store: Store, s: Setter, device: nat, name: string, value: string)
    requires Trims(s)
    ensures var r := Set(store, s, device, name, value);
            r.saved ==> (r.store[VarKey(device, ServiceId, name)] == Trim(value)
                         && IsTrimmed(r.store[VarKey(device, ServiceId, name)]))
  {
  }

  /** For a list handler, padding a value with white space or line breaks makes no difference. */
  lemma ListSettersIgnorePadding(store: Store, s: Setter, device: nat, name: string, value: string)
    requires Trims(s)
    ensures Set(store, s, device, name, Trim(value)) == Set(store, s, device, name, value)
  {
    TrimIdempotent(value);
  }

  /** A character a digit can never be. */
  lemma DigitNotTrimmable(c: char)
    requires IsDigit(c)
    ensures !IsTrimmable(c)
  {
  }

  /**
   The address and frequency handlers store the raw value, and so refuse
   any value with white space or a line break at either end.
   */
  lemma RawSettersRefusePadding(store: Store, s: Setter, device: nat, name: string, value: string)
    requires !Trims(s)
    requires value != [] && (IsTrimmable(value[0]) || IsTrimmable(value[|value|-1]))
    ensures var r := Set(store, s, device, name, value);
            !r.saved && r.store == store
  {
    if Accepts(CheckOf(s), value) {
      if s == SetIpAddress {
        AcceptedShape(value);
      } else {
        assert IsDigit(value[0]) && IsDigit(value[|value|-1]);
      }
      DigitNotTrimmable(value[0]);
      DigitNotTrimmable(value[|value|-1]);
    }
  }

  /** The update frequency handler stores only non-empty digit strings. */
  lemma FrequencyIsNumber(store: Store, device: nat, name: string, value: string)
    ensures var r := Set(store, SetUpdateFrequency, device, name, value);
            r.saved <==> IsDigitRun(value)
  {
  }

  /** A relay list typed with a trailing space is saved without it. */
  lemma PaddedRelayListSaved(store: Store, device: nat)
    ensures var r := Set(store, SetOutputRelays, device, "OutputRelays", "1,5,6 ");
            r.saved && r.store[VarKey(device, ServiceId, "OutputRelays")] == "1,5,6"
  {
    TrimPaddedList();
    PlainListExample();
  }

  lemma TrimPaddedList()
    ensures Trim("1,5,6 ") == "1,5,6"
  {
    var s := "1,5,6 ";
    assert TrimmedAt(s, 0, "1,5,6") by {
      assert s[..0] == [];
      assert s[0..5] == "1,5,6";
      assert s[5..] == " ";
    }
    TrimUnique(s, 0, "1,5,6");
  }

  /** An address typed with a trailing space is refused, since the address handler does not trim. */
  lemma PaddedAddressRefused(store: Store, device: nat)
    ensures !Set(store, SetIpAddress, device, "IpxIpAddress", "192.168.1.1 ").saved
  {
    var v := "192.168.1.1 ";
    assert IsTrimmable(v[|v|-1]);
    RawSettersRefusePadding(store, SetIpAddress, device, "IpxIpAddress", v);
  }
}
