/** The business key shared by the notification and transaction tables: unique on (biz_id, key). */
module Domain {
  datatype Key = Key(bizID: int, key: string)
}
