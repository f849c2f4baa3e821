/**
 * The run-time behaviour of one generated property,
 * `f is null ? (f = lookup) : f`: the backing field caches the component
 * the lookup found. The lookup itself (a Unity `GetComponent*` call on the
 * current scene) is not modelled; each read is given the value the lookup
 * would return at that moment, and a ghost counter records how many times
 * the lookup actually ran.
 */
module CachedAccessor {
  import opened Wrappers

  class CachedField<T> {
    /** The private backing field; `None` is C#'s `null`. */
    var backing: Option<T>
    /** How many times the getter ran the lookup. */
    ghost var lookups: nat

    /** A fresh component instance: the backing field starts out `null`. */
    constructor ()
      ensures backing == None && lookups == 0
    {
      backing := None;
      lookups := 0;
    }

    /**
     * One read of the property. A cached value is returned without running
     * the lookup; otherwise the lookup runs, its result is stored and
     * returned. A `null` result leaves the cache empty.
     */
    method Get(found: Option<T>) returns (r: Option<T>)
      modifies this
      ensures old(backing).Some? ==> r == old(backing) && backing == old(backing) && lookups == old(lookups)
      ensures old(backing).None? ==> r == found && backing == found && lookups == old(lookups) + 1
      ensures r.Some? ==> backing == r
    {
      if backing.None? {
        backing := found;
        lookups := lookups + 1;
      }
      r := backing;
    }
  }

  /**
   * Two reads in a row: once a read has found a component, the next read
   * returns that component without a lookup; if the first lookup found
   * nothing, the second read looks up again and returns what it finds.
   */
  method ReadTwice<T>(c: CachedField<T>, first: Option<T>, second: Option<T>) returns (r1: Option<T>, r2: Option<T>)
    modifies c
    ensures r1.Some? ==> r2 == r1 && c.lookups == old(c.lookups) + (if old(c.backing).None? then 1 else 0)
    ensures r1.None? ==> old(c.backing).None? && r2 == second && c.backing == second && c.lookups == old(c.lookups) + 2
  {
    r1 := c.Get(first);
    r2 := c.Get(second);
  }
}
