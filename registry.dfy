/** The process-wide instance registry: one manager per device name, held
    weakly so that a manager released by all its users is rebuilt on the
    next request. */
module Registry {
  import opened IioManager

  datatype Option<T> = None | Some(value: T)

  /** The two ways building a manager fails. */
  datatype Error = ContextInvalid | DeviceNotFound

  datatype Result<T> = Ok(value: T) | Err(error: Error)

  /** An IIO context: the devices it holds, each with its channel count. */
  datatype Context = Context(devices: map<string, nat>)

  /** The constructor's checks: a null context, then a missing device, fail;
      otherwise the device's channel count is what the manager is built with. */
  function Resolve(ctx: Option<Context>, name: string): Result<nat>
  {
    if ctx.None? then Err(ContextInvalid)
    else if name !in ctx.value.devices then Err(DeviceNotFound)
    else Ok(ctx.value.devices[name])
  }

  class DeviceRegistry {
    /** dev_map: device name to the manager last built for it. */
    var devMap: map<string, Manager>
    /** _id: the id the next manager gets. */
    var nextId: nat
    /** The managers some caller still holds a strong reference to; a map
        entry whose manager is not here has expired. */
    var alive: set<Manager>

    constructor ()
      ensures devMap == map[] && nextId == 0 && alive == {}
    {
      devMap, nextId, alive := map[], 0, {};
    }

    /** The entry for `name` exists and has not expired. */
    predicate Live(name: string)
      reads this
    {
      name in devMap && devMap[name] in alive
    }

    /** get_instance: the live manager for `name` if there is one, else a new
        manager that replaces the entry. The id counter is advanced before the
        manager is built, so a failed build consumes an id too. */
    method GetInstance(ctx: Option<Context>, name: string, bufferSize: nat) returns (r: Result<Manager>)
      modifies this
      ensures old(Live(name)) ==>
        r == Ok(old(devMap)[name]) && devMap == old(devMap) && nextId == old(nextId) && alive == old(alive)
      ensures !old(Live(name)) ==> nextId == old(nextId) + 1
      ensures !old(Live(name)) && ctx.None? ==> r == Err(ContextInvalid) && devMap == old(devMap)
      ensures !old(Live(name)) && ctx.Some? && name !in ctx.value.devices ==>
        r == Err(DeviceNotFound) && devMap == old(devMap)
      ensures !old(Live(name)) && ctx.Some? && name in ctx.value.devices ==>
        r.Ok? && r.value.channels == ctx.value.devices[name]
      ensures !old(Live(name)) && Resolve(ctx, name).Err? ==>
        r == Err(Resolve(ctx, name).error) && devMap == old(devMap) && alive == old(alive)
      ensures !old(Live(name)) && Resolve(ctx, name).Ok? ==>
        r.Ok? && fresh(r.value) &&
        r.value.id == old(nextId) && r.value.channels == Resolve(ctx, name).value &&
        r.value.bufferSize == bufferSize && r.value.taps == [] && r.value.ledger == [] && !r.value.started &&
        r.value.Valid() && r.value.Consistent() && r.value.Mirrors() &&
        devMap == old(devMap)[name := r.value] && alive == old(alive) + {r.value}
    {
      if name in devMap && devMap[name] in alive {
        return Ok(devMap[name]);
      }
      var id := nextId;
      nextId := nextId + 1;
      var checked := Resolve(ctx, name);
      if checked.Err? {
        return Err(checked.error);
      }
      var m := new Manager(id, checked.value, bufferSize);
      devMap := devMap[name := m];
      alive := alive + {m};
      r := Ok(m);
    }

    /** The last strong reference to `m` is dropped: its entry expires. */
    method Release(m: Manager)
      modifies this`alive
      ensures alive == old(alive) - {m}
    {
      alive := alive - {m};
    }
  }

  /** Two requests for one device while the first manager is held return the
      same manager. */
  method SameManagerWhileHeld(reg: DeviceRegistry, ctx: Option<Context>, name: string, size1: nat, size2: nat)
    returns (a: Result<Manager>, b: Result<Manager>)
    modifies reg
    ensures b == a
  {
    a := reg.GetInstance(ctx, name, size1);
    b := reg.GetInstance(ctx, name, size2);
  }

  /** A request after every reference to the manager was dropped builds a
      new manager, whether the first request found a live one or built it;
      when the first request built it, the new one has the next id. */
  method FreshManagerAfterRelease(reg: DeviceRegistry, ctx: Option<Context>, name: string, size: nat)
    returns (a: Result<Manager>, b: Result<Manager>)
    modifies reg
    ensures a.Ok? && Resolve(ctx, name).Ok? ==> b.Ok? && b.value != a.value && fresh(b.value)
    ensures a.Ok? && !old(reg.Live(name)) ==> b.Ok? && b.value != a.value && b.value.id == a.value.id + 1
  {
    a := reg.GetInstance(ctx, name, size);
    if a.Ok? {
      reg.Release(a.value);
    }
    b := reg.GetInstance(ctx, name, size);
  }
}
