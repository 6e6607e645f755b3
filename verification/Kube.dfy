/** The Kubernetes objects and the rule configuration, as far as the controllers read or write them. */
module Kube {
  import opened Text

  /** Durations and times are nanoseconds; 0 is Go's zero time. */
  const SECOND := 1_000_000_000

  datatype AddressType = ExternalIP | OtherAddress(name: string)
  datatype Address = Address(kind: AddressType, addr: string)

  datatype TaintKey = Uninitialized | OtherTaint(name: string)
  datatype Taint = Taint(key: TaintKey, value: string, effect: string)

  datatype ConditionType = Labeled | Annotated | ExternalIPsApplied | OtherType(name: string)
  datatype Status = IsTrue | IsFalse | IsUnknown
  datatype Reason = Pending | Applied | Drifted | OtherReason(text: string)

  /** Keys or addresses, never values. */
  datatype Drift = Drift(missing: seq<string>, changed: seq<string>)

  /** What a condition's message carries; two messages agree when they carry the same. */
  datatype Message =
    | WaitingFor(rules: seq<string>)
    | AppliedFrom(rules: seq<string>)
    | ChangedBy(rules: seq<string>, writers: seq<string>, drift: Drift, cooldown: int)
    | OtherMessage(text: string)

  datatype Condition = Condition(kind: ConditionType, status: Status, reason: Reason, message: Message,
                                 heartbeat: int, transition: int)

  /** A managed fields document: a JSON object's members, or anything that is not an object. */
  datatype Fields = Leaf | Object(members: map<string, Fields>)
  datatype FieldsV1 = NoFields | Malformed | Parsed(members: map<string, Fields>)
  datatype ManagedEntry = ManagedEntry(manager: string, subresource: string, time: Option<int>, fields: FieldsV1)

  datatype Node = Node(name: string, labels: map<string, string>, annotations: map<string, string>,
                       addresses: seq<Address>, conditions: seq<Condition>, providerID: string,
                       taints: seq<Taint>, managed: seq<ManagedEntry>)

  datatype Match = Match(nodeSelector: map<string, string>, selectorTerms: seq<string>, providerIDPattern: string)
  datatype ValueRule = ValueRule(match_: Match, values: map<string, string>)
  datatype IPRule = IPRule(match_: Match, externalIPs: seq<string>)
  datatype InitRule = InitRule(match_: Match, providerIDScheme: string)

  datatype Config = Config(initialization: map<string, InitRule>, externalIPs: map<string, IPRule>,
                           labels: map<string, ValueRule>, annotations: map<string, ValueRule>)

  const EMPTY_CONFIG := Config(map[], map[], map[], map[])

  /** The library functions the controllers call: net.ParseIP's verdict, node selector terms (None when
      they do not parse) applied to a Node's labels and name, and compiled regular expressions; and the field
      manager name under which the API server records this binary's own writes. */
  datatype Lib = Lib(manager: string,
                     isIPv6: string -> bool,
                     selects: (seq<string>, map<string, string>, string) -> Option<bool>,
                     compile: string -> Option<string -> bool>)
}
