/**
 * JSON values as they are stored in a `crumb.json` marker and carried in the
 * `extra` field of a structured reply. Numbers are integers only.
 */
module JsonValue {

  datatype Json =
    | JNull
    | JBool(b: bool)
    | JNum(n: int)
    | JStr(s: string)
    | JArr(items: seq<Json>)
    | JObj(fields: map<string, Json>)
}
