/** The node of a cJSON tree. */
module CJsonNode {
  import opened CText

  datatype Option<+T> = None | Some(value: T)

  /** `type & 255` */
  datatype Kind = FalseKind | TrueKind | NullKind | NumberKind | StringKind | ArrayKind | ObjectKind

  class Node {
    var next: Node?
    var prev: Node?
    var child: Node?
    var kind: Kind
    var isReference: bool           // type & cJSON_IsReference
    var nameIsConst: bool           // type & cJSON_StringIsConst
    var valuestring: Option<seq<byte>>
    var valuedouble: real
    var name: Option<seq<byte>>     // the field `string`

    /** `cJSON_New_Item`: all zero. */
    constructor ()
      ensures next == prev == child == null && kind == FalseKind
      ensures !isReference && !nameIsConst && valuestring == name == None && valuedouble == 0.0
    {
      next, prev, child, kind := null, null, null, FalseKind;
      isReference, nameIsConst, valuestring, valuedouble, name := false, false, None, 0.0, None;
    }
  }
}
