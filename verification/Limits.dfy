/** The limits of the core (core/inc/smm_core.h). */
module Limits {
  /** The longest text smmcore_cmd_process and smmcore_rsp_process look at. */
  const MAX_SMM_MESSAGE_SIZE := 256

  /** Size of a token and of a formatted text, their NUL included. */
  const MSG_BUF_SIZE := 128

  /** Size of the argument array of a command; the first two hold name and type. */
  const MSG_MAX_ARGS := 32
}
