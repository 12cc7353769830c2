/**
 * The e-mail autocomplete hook (lib/useClientAutocomplete.js): when the
 * e-mail field loses focus with an address that holds `@`, the client is
 * looked up and a found name and phone fill in the form, leaving every other
 * field alone; `isFetching` is cleared whether or not the lookup throws.
 *
 * The lookup (`getClientByEmail`) is outside the model: its answer for the
 * address arrives as the `lookup` parameter.
 */
module ClientAutocomplete {
  import opened Wrappers
  import opened Text

  /** The client info the page keeps; `email` stands for every field the merge spreads unchanged. */
  datatype ClientInfo = ClientInfo(name: string, email: string, phone: string)

  /** A found client; a missing or empty `name`/`phone` is falsy. */
  datatype ClientData = ClientData(name: Option<string>, phone: Option<string>)

  /** What `await getClientByEmail(email)` gives: a value (`None` when falsy) or a throw. */
  datatype LookupReply = Answered(data: Option<ClientData>) | Threw

  /** The hook's state: the page's client info and `isFetching`. */
  datatype HookState = HookState(info: ClientInfo, isFetching: bool)

  /** A truthy text. */
  predicate Filled(field: Option<string>)
  {
    field.Some? && field.value != ""
  }

  /** `{...prev, name: data.name || prev.name, phone: data.phone || prev.phone}`. */
  function Merge(prev: ClientInfo, data: ClientData): (next: ClientInfo)
    ensures next.email == prev.email
    ensures Filled(data.name) ==> next.name == data.name.value
    ensures !Filled(data.name) ==> next.name == prev.name
    ensures Filled(data.phone) ==> next.phone == data.phone.value
    ensures !Filled(data.phone) ==> next.phone == prev.phone
  {
    ClientInfo(
      if Filled(data.name) then data.name.value else prev.name,
      prev.email,
      if Filled(data.phone) then data.phone.value else prev.phone)
  }

  /** The blur guard `!email || !email.includes('@')` is false. */
  predicate LooksUp(email: string)
  {
    email != "" && Contains(email, "@")
  }

  /**
   * `handleEmailBlur`: the state after the handler settles, and whether it
   * asked for a lookup. A throw leaves the client info as it was.
   */
  function OnEmailBlur(email: string, st: HookState, lookup: string -> LookupReply): (r: (HookState, bool))
    ensures r.1 <==> '@' in email
    ensures !r.1 ==> r.0 == st
    ensures r.1 ==> !r.0.isFetching
    ensures r.1 && lookup(email).Answered? && lookup(email).data.Some? ==>
      r.0.info == Merge(st.info, lookup(email).data.value)
    ensures r.1 && (lookup(email).Threw? || lookup(email).data.None?) ==> r.0.info == st.info
  {
    LooksUpIffHasAt(email);
    if !LooksUp(email) then (st, false)
    else
      match lookup(email)
      case Threw => (HookState(st.info, false), true)
      case Answered(None) => (HookState(st.info, false), true)
      case Answered(Some(data)) => (HookState(Merge(st.info, data), false), true)
  }

  /** The guard is the same as "the address holds an `@`": an empty one holds none. */
  lemma LooksUpIffHasAt(email: string)
    ensures LooksUp(email) <==> '@' in email
  {
    ContainsSpec(email, "@");
    if '@' in email {
      var i :| 0 <= i < |email| && email[i] == '@';
      assert email[i..i + 1] == "@";
      assert OccursAt(email, "@", i);
    }
    if Contains(email, "@") {
      var i :| OccursAt(email, "@", i);
      assert email[i] == email[i..i + 1][0];
    }
  }

  /** A reply with neither a name nor a phone leaves the client info as it was. */
  lemma MergeOfNothing(prev: ClientInfo, data: ClientData)
    requires !Filled(data.name) && !Filled(data.phone)
    ensures Merge(prev, data) == prev
  {
  }

  /** Merging the same reply twice is merging it once. */
  lemma MergeIdempotent(prev: ClientInfo, data: ClientData)
    ensures Merge(Merge(prev, data), data) == Merge(prev, data)
  {
  }

  /** A second blur with the same address and answer changes nothing more. */
  lemma BlurTwiceIsBlurOnce(email: string, st: HookState, lookup: string -> LookupReply)
    ensures OnEmailBlur(email, OnEmailBlur(email, st, lookup).0, lookup).0.info == OnEmailBlur(email, st, lookup).0.info
  {
    var once := OnEmailBlur(email, st, lookup).0;
    if '@' in email && lookup(email).Answered? && lookup(email).data.Some? {
      MergeIdempotent(st.info, lookup(email).data.value);
    }
  }
}
