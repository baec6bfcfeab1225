/** The small pure helpers of `EmuSystem`: the run-state predicates, the
    save-slot names, and the game-name fallbacks.

    Game names live in fixed-size C character buffers; a buffer is modelled
    as the sequence of its characters, and the string it holds is the part
    before the first NUL. */
module EmuSystemModel {
  import opened Wrappers

  /** `EmuSystem::State`. */
  datatype State = Off | Starting | Paused | Active

  /** `isActive`: the emulation is running. */
  function IsActive(s: State): (b: bool)
    ensures b <==> s == Active
  {
    s.Active?
  }

  /** `isStarted`: a game has been started and not closed, running or paused. */
  function IsStarted(s: State): (b: bool)
    ensures b <==> s == Active || s == Paused
  {
    match s
    case Active => true
    case Paused => true
    case _ => false
  }

  /** `isPaused`: a started game is paused. */
  function IsPaused(s: State): (b: bool)
    ensures b <==> s == Paused
  {
    s.Paused?
  }

  /** Running and paused are the two ways of being started; being off or
      still starting is neither. */
  lemma StartedIsActiveOrPaused(s: State)
    ensures IsStarted(s) <==> IsActive(s) || IsPaused(s)
    ensures !(IsActive(s) && IsPaused(s))
    ensures s == Off || s == Starting ==> !IsStarted(s)
  {
  }

  /** `stateNameStr`: the name shown for a save-state slot, "Auto" for the
      automatic slot -1 and the slot's decimal digit for 0 to 9. */
  function StateNameStr(slot: int): (name: string)
    requires -1 <= slot < 10
    ensures slot == -1 ==> name == "Auto"
    ensures slot >= 0 ==> |name| == 1 && name[0] as int - '0' as int == slot
  {
    var names := ["Auto", "0", "1", "2", "3", "4", "5", "6", "7", "8", "9"];
    names[slot + 1]
  }

  /** The slot a name stands for, if any. */
  function ParseStateName(name: string): (slot: Option<int>)
    ensures slot.Some? ==> -1 <= slot.value < 10
  {
    if name == "Auto" then Some(-1)
    else if |name| == 1 && '0' <= name[0] <= '9' then Some(name[0] as int - '0' as int)
    else None
  }

  /** Every slot's name reads back as that slot, so no two slots share a name. */
  lemma StateNameRoundTrip(slot: int)
    requires -1 <= slot < 10
    ensures ParseStateName(StateNameStr(slot)) == Some(slot)
  {
  }

  /** Distinct slots have distinct names. */
  lemma StateNamesDistinct(a: int, b: int)
    requires -1 <= a < 10 && -1 <= b < 10
    requires StateNameStr(a) == StateNameStr(b)
    ensures a == b
  {
    StateNameRoundTrip(a);
    StateNameRoundTrip(b);
  }

  /** The string a C character buffer holds: its characters before the first NUL. */
  function CString(buf: seq<char>): (s: seq<char>)
    ensures |s| <= |buf| && s == buf[..|s|]
    ensures forall i :: 0 <= i < |s| ==> s[i] != '\0'
    ensures |s| < |buf| ==> buf[|s|] == '\0'
  {
    if |buf| == 0 || buf[0] == '\0' then [] else [buf[0]] + CString(buf[1..])
  }

  /** `fullGameName`: the full name when one was set, otherwise the short game name. */
  function FullGameName(fullGameName: seq<char>, gameName: seq<char>): (r: seq<char>)
    ensures CString(fullGameName) != [] ==> r == fullGameName
    ensures CString(fullGameName) == [] ==> r == gameName
  {
    if |fullGameName| > 0 && fullGameName[0] != '\0' then fullGameName else gameName
  }

  /** `gameIsRunning`: a game is loaded exactly when its short name is not empty. */
  function GameIsRunning(gameName: seq<char>): (b: bool)
    ensures b <==> CString(gameName) != []
  {
    !(|gameName| == 0 || gameName[0] == '\0')
  }

  /** While a game is loaded, the name shown for it is never empty. */
  lemma RunningGameHasName(fullGameName: seq<char>, gameName: seq<char>)
    requires GameIsRunning(gameName)
    ensures CString(FullGameName(fullGameName, gameName)) != []
  {
  }
}
