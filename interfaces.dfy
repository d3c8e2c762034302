/**
 * Interface names on the one-module switches the scripts drive: `Gi1/0/<n>`,
 * formatted with `'Gi1/0/{}'.format(x)` and read back with `int(iface[6:])`.
 */
module Interfaces {
  import opened Wrappers
  import opened Text

  const PREFIX: string := "Gi1/0/"

  /** `'Gi1/0/{}'.format(x)` where `x` is already text (a token, or `str(n)`). */
  function PortName(x: string): string
  {
    PREFIX + x
  }

  /** `int(iface[6:])`; None where Python raises ValueError. */
  function PortNumber(iface: string): Option<int>
  {
    ParseInt(if |iface| < 6 then "" else iface[6..])
  }

  /** The number after the prefix reads back as the number that was formatted. */
  lemma PortNumberOfName(n: int)
    ensures PortNumber(PortName(IntString(n))) == Some(n)
  {
    assert PortName(IntString(n))[6..] == IntString(n);
    ParseIntString(n);
  }

  /** Hence distinct port numbers give distinct names. */
  lemma PortNameInjective(m: int, n: int)
    requires PortName(IntString(m)) == PortName(IntString(n))
    ensures m == n
  {
    PortNumberOfName(m);
    PortNumberOfName(n);
  }
}
