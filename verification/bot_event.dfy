/** The part of an inbound chat event that the FAQ plugins and the plugin group read. */
module BotEvent {

  /**
   The `data` dictionary of a message event: `group_id`, `user_id`, `time`, and
   whether `message_type` is `'group'`.
   */
  datatype Ctx = Ctx(groupId: int, userId: int, time: int, isGroup: bool)
}
