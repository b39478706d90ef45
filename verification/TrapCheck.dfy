/** The trap check of internal/grey: is the recipient of a grey message a trap? */
module TrapCheck {
  import opened ByteStrings
  import opened Keys
  import opened MemoryStore

  ghost predicate Listed(domains: seq<Bytes>, to: Bytes) {
    exists i :: 0 <= i < |domains| && DomainMatches(domains[i], to)
  }

  /** trapCheck: a recipient is a trap if it is a stored spamtrap, or if domains are checked at all
      and neither the configured nor, where they are used, the stored ones permit it. */
  method Check(tx: Tx, domains: seq<Bytes>, stored: bool, to: Bytes) returns (trap: bool)
    requires tx.Valid()
    ensures trap <==>
      || EncodeKey(MailKey(to)) in tx.data[Spamtraps]
      || ((domains != [] || stored) && !Listed(domains, to) && !(stored && Permitted(tx.data[Domains], to)))
  {
    hide DomainMatches, Permitted, EncodeKey;
    var permits, check := false, false;
    if |domains| > 0 {
      check := true;
      for i := 0 to |domains|
        invariant permits <==> exists j :: 0 <= j < i && DomainMatches(domains[j], to)
      {
        if DomainMatches(domains[i], to) { permits := true; }
      }
    }
    if !permits && stored {
      check := true;
      var _, found := tx.Get(DomainPartKey(to));
      if found { permits := true; }
    }
    if check && !permits { return true; }
    var _, found := tx.Get(MailKey(to));
    trap := found;
  }
}
