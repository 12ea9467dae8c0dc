/** The durable medium a storage is backed by (the browser's `localStorage`
    or `sessionStorage`): a string-to-string store enumerated by position.
    Several storages of different namespaces may share one medium. Whether a
    write is refused (a full quota, a disabled store) is fixed when the
    medium is made: `accepts` decides each `setItem`, `removable` every
    `removeItem`; a refused call throws in the browser and changes nothing. */
module Media {
  import opened Wrappers
  import opened OrderedMaps

  class Medium {
    var items: OMap<string>
    const accepts: (string, string) -> bool
    const removable: bool

    ghost predicate Valid()
      reads this
    {
      items.Valid()
    }

    constructor (initial: OMap<string>, accepts: (string, string) -> bool, removable: bool)
      requires initial.Valid()
      ensures Valid()
      ensures items == initial && this.accepts == accepts && this.removable == removable
    {
      items := initial;
      this.accepts := accepts;
      this.removable := removable;
    }

    /** `length` */
    function Length(): nat
      reads this
    {
      |items.order|
    }

    /** `key(i)` */
    function Key(i: nat): string
      reads this
      requires i < Length()
    {
      items.order[i]
    }

    /** `getItem(key)`: the stored text, or `None` (the browser's `null`). */
    function GetItem(key: string): Option<string>
      reads this
    {
      items.Get(key)
    }

    /** `setItem(key, text)`: stores the text unless the medium refuses it. */
    method SetItem(key: string, text: string) returns (ok: bool)
      requires Valid()
      modifies this
      ensures Valid()
      ensures ok == accepts(key, text)
      ensures items == if ok then old(items).Put(key, text) else old(items)
    {
      ok := accepts(key, text);
      if ok {
        items := items.Put(key, text);
      }
    }

    /** `removeItem(key)`: removes the key unless the medium refuses it;
        removing an absent key changes nothing. */
    method RemoveItem(key: string) returns (ok: bool)
      requires Valid()
      modifies this
      ensures Valid()
      ensures ok == removable
      ensures items == if ok then old(items).Remove(key) else old(items)
    {
      ok := removable;
      if ok {
        items := items.Remove(key);
      }
    }
  }
}
