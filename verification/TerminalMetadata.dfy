/**
 * The immutable per-terminal record kept by the client-side terminal
 * registry, the request sent to the session starter, and the constants
 * the registry reads from its collaborators.
 */
module TerminalMetadata {
  import opened Wrappers

  /** Sequence number meaning "no terminal"; its value is defined outside this model. */
  const SEQUENCE_NO_TERMINAL: int
  /** Auto-close policy used when none is known; defined outside this model. */
  const AUTOCLOSE_DEFAULT: int
  /** Default pseudoterminal width and height; defined outside this model. */
  const DEFAULT_COLS: int
  const DEFAULT_ROWS: int
  /** Shell kind used for new terminals; defined outside this model. */
  const SHELL_DEFAULT: int

  /**
   * One terminal's metadata. The handle, caption and title are never null
   * (the record's constructor replaces null by the empty string); the working
   * directory may be unknown.
   */
  datatype Metadata = Metadata(
    handle: string,
    caption: string,
    title: string,
    sequence: int,
    childProcs: bool,
    cols: int,
    rows: int,
    shellType: int,
    altBufferActive: bool,
    cwd: Option<string>,
    autoCloseMode: int,
    zombie: bool)

  /**
   * The arguments of one request to start (or resume) a remote terminal
   * session. Absent handle, caption or title are the nulls the registry
   * passes for a brand new terminal; blinkingCursor is the user preference
   * read at the time of the request.
   */
  datatype StartRequest = StartRequest(
    sequence: int,
    handle: Option<string>,
    caption: Option<string>,
    title: Option<string>,
    childProcs: bool,
    cols: int,
    rows: int,
    blinkingCursor: bool,
    shellType: int,
    altBufferActive: bool,
    cwd: Option<string>,
    autoCloseMode: int,
    zombie: bool)

  /** Java's StringUtil.isNullOrEmpty. */
  predicate IsNullOrEmpty(s: Option<string>)
  {
    s.None? || s.value == ""
  }

  /**
   * The request for a brand new terminal: no handle, no title, default
   * dimensions, shell and auto-close policy, and assumed busy until the
   * server reports otherwise.
   */
  function NewSessionRequest(sequence: int, caption: Option<string>, blink: bool): (r: StartRequest)
  {
    StartRequest(sequence, None, caption, None, true, DEFAULT_COLS, DEFAULT_ROWS,
                 blink, SHELL_DEFAULT, false, None, AUTOCLOSE_DEFAULT, false)
  }

  /**
   * The request that resumes the session of stored record m under handle h:
   * every field is carried over from the record.
   */
  function ReconnectRequest(h: string, m: Metadata, blink: bool): (r: StartRequest)
  {
    StartRequest(m.sequence, Some(h), Some(m.caption), Some(m.title), m.childProcs,
                 m.cols, m.rows, blink, m.shellType, m.altBufferActive, m.cwd,
                 m.autoCloseMode, m.zombie)
  }
}
