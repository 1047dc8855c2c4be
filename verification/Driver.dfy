/** The values that a database driver hands to Scan. */
module Driver {
  import opened Wrappers
  import opened Netip
  import opened Net

  datatype DriverValue =
    | Nil
    | Text(text: string)
    | ByteText(text: string)
    | NetPtr(net: Option<IPNet>)                 // *net.IPNet, perhaps nil
    | NetValue(value: IPNet)                     // net.IPNet
    | NetAddr(ip: Bytes)                         // net.IP
    | PrefixValue(prefix: Option<Prefix>)        // netip.Prefix; None is the invalid one
    | PrefixPtr(target: Option<Option<Prefix>>)  // *netip.Prefix, perhaps nil
    | Other(name: string)
  {
    /** SQL null, a nil pointer or an invalid prefix. */
    predicate IsNull() {
      match this
      case Nil => true
      case NetPtr(n) => n.None?
      case PrefixValue(p) => p.None?
      case PrefixPtr(t) => t.None? || t.value.None?
      case _ => false
    }

    /** What %T prints. */
    function TypeName(): string {
      match this
      case Nil => "<nil>"
      case Text(_) => "string"
      case ByteText(_) => "[]uint8"
      case NetPtr(_) => "*net.IPNet"
      case NetValue(_) => "net.IPNet"
      case NetAddr(_) => "net.IP"
      case PrefixValue(_) => "netip.Prefix"
      case PrefixPtr(_) => "*netip.Prefix"
      case Other(name) => name
    }
  }

  /** The names of the types, as an error prints them. */
  lemma TypeNames(n: IPNet, ip: Bytes, s: string)
    ensures Nil.TypeName() == "<nil>" && Text(s).TypeName() == "string" && ByteText(s).TypeName() == "[]uint8"
    ensures NetPtr(None).TypeName() == "*net.IPNet" && NetValue(n).TypeName() == "net.IPNet"
    ensures NetAddr(ip).TypeName() == "net.IP"
    ensures PrefixValue(None).TypeName() == "netip.Prefix" && PrefixPtr(None).TypeName() == "*netip.Prefix"
    ensures Other(s).TypeName() == s
  {
  }
}
