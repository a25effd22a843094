/** References on NetIO descriptors, and the list of their RX listeners (common/net_io.c). */
module NioRegistry {
  /** How many ends of a connection a name is. */
  function Ends(n: string, input: string, output: string): int {
    (if input == n then 1 else 0) + (if output == n then 1 else 0)
  }

  /** How often a descriptor is listened to; not at all when it is not in the list. */
  function Heard(listeners: map<string, nat>, name: string): nat {
    if name in listeners then listeners[name] else 0
  }

  function Listened(listeners: map<string, nat>, name: string): map<string, nat> {
    listeners[name := Heard(listeners, name) + 1]
  }

  /** One listener less; the last one goes out of the list. */
  function Unheard(listeners: map<string, nat>, name: string): map<string, nat> {
    if Heard(listeners, name) <= 1 then listeners - {name} else listeners[name := listeners[name] - 1]
  }

  /** `netio_rxl_list`: a reference count for each descriptor somebody listens to. */
  class RxList {
    var counts: map<string, nat>

    constructor ()
      ensures counts == map[]
    {
      counts := map[];
    }

    /** `netio_rxl_add_internal`. */
    method Add(name: string)
      modifies this
      ensures counts == Listened(old(counts), name)
    {
      if name in counts {
        counts := counts[name := counts[name] + 1];
      } else {
        counts := counts[name := 1];
      }
    }

    /** `netio_rxl_remove_internal`. */
    method Remove(name: string)
      modifies this
      ensures counts == Unheard(old(counts), name)
    {
      if name in counts {
        if counts[name] > 1 {
          counts := counts[name := counts[name] - 1];
        } else {
          counts := counts - {name};
        }
      }
      assert name !in old(counts) ==> old(counts) - {name} == old(counts);
    }
  }

  /** The NetIO part of the registry: a reference count for each name. */
  class Registry {
    var refs: map<string, int>

    /** `netio_acquire`. */
    method Acquire(name: string) returns (found: bool)
      modifies this
      ensures found == (name in old(refs))
      ensures refs == if found then old(refs)[name := old(refs)[name] + 1] else old(refs)
    {
      found := name in refs;
      if found {
        refs := refs[name := refs[name] + 1];
      }
    }

    /** `netio_release`. */
    method Release(name: string)
      modifies this
      ensures refs == if name in old(refs) then old(refs)[name := old(refs)[name] - 1] else old(refs)
    {
      if name in refs {
        refs := refs[name := refs[name] - 1];
      }
    }

    /** Both ends of a connection being created. */
    method AcquireEnds(input: string, output: string) returns (inputFound: bool, outputFound: bool)
      modifies this
      ensures inputFound == (input in old(refs)) && outputFound == (output in old(refs))
      ensures refs.Keys == old(refs).Keys
      ensures forall n :: n in refs ==> refs[n] == old(refs)[n] + Ends(n, input, output)
    {
      inputFound := Acquire(input);
      outputFound := Acquire(output);
    }

    /** The ends of a connection that were found. */
    method ReleaseEnds(input: string, inputFound: bool, output: string, outputFound: bool)
      requires inputFound == (input in refs) && outputFound == (output in refs)
      modifies this
      ensures refs.Keys == old(refs).Keys
      ensures forall n :: n in refs ==> refs[n] == old(refs)[n] - Ends(n, input, output)
    {
      if inputFound {
        Release(input);
      }
      if outputFound {
        Release(output);
      }
    }
  }
}
