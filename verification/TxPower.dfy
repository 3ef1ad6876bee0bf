/** Transmit power over channel changes: the limit on channel 26 and the register that carries it. */
module TxPower {

  const LIMITED_CHANNEL := 26
  const MAX_CH26 := 4

  type octet = x: int | 0 <= x < 0x100
  type int8 = x: int | -0x80 <= x < 0x80

  function DbmToPaib(dbm: int): octet {
    if dbm > 8 then 0x3F else if dbm == 8 then 0x32 else if dbm == 7 then 0x22 else if dbm == 6 then 0x18
    else if dbm == 5 then 0x10 else if dbm == 4 then 0x0C else if dbm == 3 then 0x08 else if dbm == 2 then 0x05
    else if dbm == 1 then 0x03 else if dbm == 0 then 0x01 else 0x00
  }

  function PaibToDbm(paib: octet): int8 {
    if paib >= 0x3F then 9 else if paib >= 0x32 then 8 else if paib >= 0x22 then 7 else if paib >= 0x18 then 6
    else if paib >= 0x10 then 5 else if paib >= 0x0C then 4 else if paib >= 0x08 then 3 else if paib >= 0x05 then 2
    else if paib >= 0x03 then 1 else if paib > 0x00 then 0 else -1
  }

  function Clamp(dbm: int): int8 { if dbm < -1 then -1 else if dbm > 9 then 9 else dbm }

  function Min(a: int, b: int): int { if a < b then a else b }

  /** The low six bits of an octet, read as a signed number. */
  function SignExtend6(v: octet): (r: int8)
    ensures -32 <= r < 32 && (v - r) % 64 == 0
  {
    if v % 64 >= 32 then v % 64 - 64 else v % 64
  }

  /** The two tables are inverse to each other on what the register can express. */
  lemma RoundTrip(dbm: int, paib: octet)
    ensures PaibToDbm(DbmToPaib(dbm)) == Clamp(dbm)
    ensures DbmToPaib(PaibToDbm(paib)) <= paib
    ensures PaibToDbm(paib) < 9 ==> paib < DbmToPaib(PaibToDbm(paib) + 1)
  {}

  /** The register values, in steps of 1 dBm from -1 to 9. */
  lemma Table(dbm: int)
    requires -1 <= dbm <= 9
    ensures DbmToPaib(dbm) == [0x00, 0x01, 0x03, 0x05, 0x08, 0x0C, 0x10, 0x18, 0x22, 0x32, 0x3F][dbm + 1]
  {}

  /** A command that reaches the device, with the payload octet that matters. */
  datatype Command =
    | SetTransmitPower(value: octet)     // MLME-SET of phyTransmitPower
    | SetHwTxPower(value: octet)         // HWME-SET of the TX power attribute: the register value itself
    | SetTxConfig(value: octet)          // TDME-SET of the TX configuration: the register value itself
    | SetChannel(channel: octet)         // any of the four ways to change the channel

  class Dispatcher {
    var currentChannel: octet
    var currentTxPower: int8
    var register: octet                  // PACFGIB on the radio

    /** What the power amplifier should be doing. */
    ghost predicate Limited()
      reads this
    {
      PaibToDbm(register) == if currentChannel == LIMITED_CHANNEL then Min(MAX_CH26, Clamp(currentTxPower)) else Clamp(currentTxPower)
    }

    constructor (register: octet)
      requires PaibToDbm(register) == 9
      ensures Limited() && currentChannel == 18 && currentTxPower == 9
    {
      currentChannel, currentTxPower := 18, 9;
      this.register := register;
    }

    /** Sets the power nearest to the six-bit request, with the least current that gives it. */
    method SetTxPower(txp: octet)
      modifies this`register
      ensures PaibToDbm(register) == Clamp(SignExtend6(txp))
      ensures forall p: octet :: PaibToDbm(p) == Clamp(SignExtend6(txp)) ==> register <= p
    {
      register := DbmToPaib(SignExtend6(txp));
    }

    /** Intervention on power settings; returns what goes on to the radio, if anything does. */
    method CheckSetGet(c: Command) returns (consumed: bool, value: octet)
      requires !c.SetChannel?
      modifies this`currentTxPower, this`register
      ensures consumed <==> c.SetTransmitPower?
      ensures currentTxPower == if c.SetTransmitPower? then SignExtend6(c.value) else PaibToDbm(c.value)
      ensures consumed && c.value < 0x40 ==> Limited()
      ensures !consumed ==> register == old(register)
      ensures !consumed ==> value == if currentChannel == 26 && c.value >= 0x10 then 0x0C else c.value
      ensures !consumed ==> PaibToDbm(value) ==
                            if currentChannel == LIMITED_CHANNEL then Min(MAX_CH26, Clamp(currentTxPower)) else Clamp(currentTxPower)
    {
      value := c.value;
      if c.SetTransmitPower? {
        currentTxPower := SignExtend6(value);
        var val: octet := if currentTxPower < 0 then currentTxPower + 0x100 else currentTxPower;
        if currentChannel == LIMITED_CHANNEL && currentTxPower > MAX_CH26 {
          val := MAX_CH26;
        }
        ExtendTwice(currentTxPower);
        SetTxPower(val);
        RoundTrip(SignExtend6(val), 0);
        return true, value;
      }
      currentTxPower := PaibToDbm(value);
      if currentChannel == LIMITED_CHANNEL && currentTxPower > MAX_CH26 {
        value := DbmToPaib(MAX_CH26);
      }
      return false, value;
    }

    /** Intervention on channel changes. */
    method CheckChannel(channel: octet)
      requires Limited()
      modifies this`currentChannel, this`register
      ensures Limited() && currentChannel == if channel != 0 then channel else old(currentChannel)
    {
      RoundTrip(currentTxPower, 0);
      if channel != 0 {
        if channel == LIMITED_CHANNEL && currentTxPower > MAX_CH26 {
          register := DbmToPaib(MAX_CH26);
        } else if currentChannel == LIMITED_CHANNEL && currentTxPower > MAX_CH26 {
          register := DbmToPaib(currentTxPower);
        }
        currentChannel := channel;
      }
    }

    /** One successful command. */
    method Execute(c: Command)
      requires Limited()
      modifies this
      ensures Limited()
      ensures currentChannel == if c.SetChannel? && c.channel != 0 then c.channel else old(currentChannel)
      ensures currentTxPower == match c
                case SetTransmitPower(v) => if v < 0x40 then SignExtend6(v) else old(currentTxPower)
                case SetHwTxPower(v) => PaibToDbm(v)
                case SetTxConfig(v) => PaibToDbm(v)
                case SetChannel(_) => old(currentTxPower)
      ensures c.SetHwTxPower? || c.SetTxConfig? ==>
                register == if currentChannel == 26 && c.value >= 0x10 then 0x0C else c.value
    {
      if c.SetChannel? {
        CheckChannel(c.channel);
      } else if c.SetTransmitPower? && c.value > 0x3F {
        return;   // refused as an invalid parameter
      } else {
        var consumed, value := CheckSetGet(c);
        if !consumed {
          register := value;
        }
      }
    }

    /** Over every run of successful commands, the radio never exceeds the limit of its channel and always restores the rest. */
    method Run(commands: seq<Command>)
      requires Limited()
      modifies this
      ensures Limited()
      ensures PaibToDbm(register) == if currentChannel == 26 then Min(4, Clamp(currentTxPower)) else Clamp(currentTxPower)
      ensures currentChannel == 26 ==> PaibToDbm(register) <= 4
    {
      for i := 0 to |commands|
        invariant Limited()
      {
        Execute(commands[i]);
      }
    }
  }

  /** Extending an already extended six-bit number again changes nothing. */
  lemma ExtendTwice(dbm: int8)
    requires -32 <= dbm < 32
    ensures SignExtend6(if dbm < 0 then dbm + 0x100 else dbm) == dbm
  {}
}
