# RGB lamp firmware core, modelled in Dafny

This project models the control logic of an nRF52 RGB lamp firmware. It has five parts:

- **The flash record log** (`nvmc_control.c`, module `FlashLog`). One 4 KiB flash page holds an append-only sequence of records. Each record is a size word followed by size/4 payload words. An all-ones word at a record boundary marks free space. nvmc_read_last_data returns the last record and nvmc_write_data appends a new one; their callers are not part of this model.
- **The button gesture recogniser** (`button_handler.c`, module `Gesture`). A pressed edge arms a debounce timer. Its expiry counts a click in a `uint8_t` counter, reports a single click on the first press and a double click on the second, and arms the long-press timer. The long-press and repeat timers report long presses while the button stays down.
- **The colour-mode state** (`led_control.c`, module `Led`). The mode cycles AFK → hue → saturation → brightness. A long press steps the value of the current mode; saturation and brightness ping-pong between 0 and 255 when the step divides 255, and can leave that range otherwise (see Findings). The PWM timer advances LED1's duty value by mode.
- **The USB command line** (`cli_control.c`, module `Cli`). Received characters are echoed and collected in a 64-byte buffer. A line ending interprets the line as `HELP`, `RGB r g b` or `HSV h s v`, in any letter case, with `atoi` and range checks.
- **The PWM duty table** (`pwm_control.c`, module `Pwm`). One of four 16-bit channel slots takes a value reduced modulo 256.

`common.dfy` holds the C integer types (`uint8`, `uint16`, `uint32`, `int32`), the 32-bit wrap-around `Wrap32` and `Option`.

The same layout is used in every module:

- A pure function per operation, on a datatype holding the module state, carries the contract.
- A class with the firmware's variables as fields has one method per C function. Each method is proved to produce the new state and outputs that the function gives.
- Lemmas relate the functions across several calls: round trips, invariants, and traces of several handlers.

Hardware is replaced by values:

- the sampled button level is a `pressed: bool` input;
- the callbacks a handler dispatches, and the setters the command line calls, are returned as sequences;
- the flash page is an `array<uint32>` indexed in words from the page start;
- timers are only "armed" or not.

## Model

| member | source | states |
|---|---|---|
| FlashLog.ScanFrom | nvmc_control.c:63-86 | The boundary scan reports no record exactly when the first word is the sentinel. A last record it reports ends exactly on a sentinel and is reached by whole-record steps of 1 + size/4 words. A full page means no reachable boundary inside the page holds the sentinel. |
| FlashLog.ScanPage | nvmc_control.c:65-86 | The scan from the page start reports no record exactly when the first word is the sentinel. A last record lies on the chain of record steps from the start and is followed directly by the sentinel. A full page means no boundary on that chain inside the page holds the sentinel. ScanFindsRecord and ScanOverrunsPage say which outcome a given chain produces. |
| FlashLog.ScanFindsRecord | nvmc_control.c:69-82 | The scan stops at the first record on the step chain whose successor boundary is the sentinel, and returns that record and that sentinel. |
| FlashLog.ScanOverrunsPage | nvmc_control.c:69-85 | A record on the step chain whose footprint reaches or passes the page end makes the scan report a full page. |
| FlashLog.ScanReachesRecord | nvmc_control.c:69-81 | The record the scan returns lies on the step chain from where the scan began. |
| FlashLog.ReachesFrame | nvmc_control.c:80-81 | Whether a boundary is reached depends only on the words before it. |
| FlashLog.ReachesStep | nvmc_control.c:80-81 | One more record step extends the chain of boundaries. |
| FlashLog.ReadLastSpec | nvmc_control.c:94-120 | A read succeeds exactly when the scan finds a last record whose size word equals the block size. It then yields that record's size/4 payload words and the sentinel position after them, the record and sentinel being the ones the scan stops at. |
| FlashLog.WillErase | nvmc_control.c:124-126 | The erase test: a set erase flag always erases. Without an erase the record fits in the page. For block sizes that are a multiple of 4 and a clear flag, the write erases exactly when the record would not fit; ExactFillIsLost shows the boundary case. |
| FlashLog.Appended | nvmc_control.c:134-141 | Appending puts the size word at the cursor and the first size/4 data words after it. Every other word is unchanged. |
| FlashLog.WriteWith | nvmc_control.c:122-142 | A write, erasing first or not, leaves the cursor 1 + size/4 words after its start (the page start after an erase). The record is placed just before the cursor, and every other word is erased or unchanged. |
| FlashLog.WriteSpec | nvmc_control.c:122-142 | The page is erased and the cursor reset exactly when the erase flag is set or the record would pass the page end. Without an erase only the record's words change. The cursor never passes the page end when size + 4 ≤ 4096. |
| FlashLog.FormattedIsWritable | nvmc_control.c:124-141 | On a well-formed log, every word a non-erasing write touches is still erased. |
| FlashLog.ReadLeavesFormatted | nvmc_control.c:113-119 | After a successful read the cursor sits on the sentinel of a well-formed log, provided the words after the sentinel are erased. |
| FlashLog.WriteKeepsFormatted | nvmc_control.c:122-142 | Every write leaves a well-formed log: a chain of records from the page start, then erased words. |
| FlashLog.WrittenRecordIsLast | nvmc_control.c:63-142 | After a write, the scan returns the record just written when a sentinel word follows it inside the page. It returns a miss when the record ends at the page end. |
| FlashLog.RoundTrip | nvmc_control.c:88-142 | Writing data and reading the last record with the same block size returns exactly the first size/4 data words, whenever the record stops short of the page end. |
| FlashLog.ExactFillIsLost | nvmc_control.c:124-126 | As written: a record ending exactly at the page end passes the erase test, and reading it back afterwards misses. |
| FlashLog.FullPageRecordIsLost | nvmc_control.c:124-126 | As written: one 4092-byte record written to an erased page fills it, and the read after a reset returns nothing. |
| FlashLog.WriteFixed | nvmc_control.c:124-126 | With the erase test corrected to "≥", the cursor always stays strictly inside the page after a write. |
| FlashLog.RoundTripFixed | nvmc_control.c:88-142 | With the corrected erase test, the round trip holds for every block size below 4092 bytes. |
| FlashLog.StrayWordSurvivesRead | nvmc_control.c:94-126 | A page holding one record, its sentinel and then a stray written word reads successfully. The next write then passes the erase test although one of its words is already written. |
| FlashLog.InitializeAloneMayOverwrite | nvmc_control.c:88-92 | A write straight after initialisation, without a read, can target a word that is already written. |
| FlashLog.NvmcContext.constructor | nvmc_control.c:23-26 | Boot state: the static initialiser, then initialisation with the block size. The erase flag is false and the cursor is at the page start. |
| FlashLog.NvmcContext.Initialize | nvmc_control.c:88-92 | Sets the block size and moves the cursor to the page start. The erase flag is kept. |
| FlashLog.NvmcContext.FindLastAddress | nvmc_control.c:63-86 | The scan loop returns the scan function's result. The erase flag is set exactly when the scan runs off the page. |
| FlashLog.NvmcContext.ReadLast | nvmc_control.c:94-120 | On a hit: returns the block size, copies the payload into the buffer and leaves the cursor on the sentinel. On a miss: returns 0, sets the erase flag, and leaves the cursor and the buffer alone. |
| FlashLog.NvmcContext.ErasePage | nvmc_control.c:53-56 | Every word of the page becomes all ones. |
| FlashLog.NvmcContext.WriteWord | nvmc_control.c:43-46 | An erased word takes the value; nothing else changes. |
| FlashLog.NvmcContext.WriteData | nvmc_control.c:122-142 | The new page and cursor are those of WriteSpec. The erase flag ends clear. |
| FlashLog.NvmcContext.AppendRecord | nvmc_control.c:134-141 | The post-incrementing loop places the size word and the payload words. The cursor advances by exactly 1 + size/4. |
| FlashLog.WriteThenReboot | nvmc_control.c:88-142 | Write, reset to a fresh context over the same page, read: when the record stops short of the page end, the read returns the block size and the buffer holds the data written. |
| FlashLog.WriteRecord | nvmc_control.c:122-142 | After a write to a well-formed (or about-to-be-erased) log, when the record stops short of the page end, the last record found is the one just written, with the cursor just past it. |
| FlashLog.ReadAfterReset | nvmc_control.c:88-120 | A fresh context over a page whose last record has the block size returns that size and copies that record's payload. |
| Gesture.EventInit | button_handler.c:27-32 | Registers the three callbacks and changes nothing else. |
| Gesture.Edge | button_handler.c:53-59 | A released edge changes nothing. A pressed edge only arms the debounce timer. Neither dispatches a callback. |
| Gesture.ClickEvents | button_handler.c:86-103 | A single click is dispatched exactly when the new counter is 1 and the slot is set. A double click is dispatched exactly when it is 2 and the slot is set. Nothing is dispatched otherwise. |
| Gesture.Click | button_handler.c:80-104 | The counter goes up by one modulo 256 and the double-click timer is armed. The events are those of the new counter value; nothing else changes. |
| Gesture.Debounce | button_handler.c:61-78 | Pressed: counts a click, and arms the long-press timer unless a long press is active. Released: stops both long-press timers, ends the long press, and keeps the counter with no event. |
| Gesture.WindowExpiry | button_handler.c:106-111 | The window closes and the counter becomes 0 whatever it was. Nothing is dispatched. |
| Gesture.LongPressExpiry | button_handler.c:113-126 | Pressed: the long press starts, is reported once, and the repeat timer is armed. Released: nothing but the fired timer changes. In both cases the debounce and double-click timers, the click flags, the counter and the callbacks are unchanged. |
| Gesture.RepeatExpiry | button_handler.c:128-142 | Pressed: reports the long press again and changes no state. Released: stops the repeat timer and ends the long press. |
| Gesture.HandlersKeepDeadFlagsClear | button_handler.c:17-18 | No handler ever sets first_click_detected or double_click_detected. |
| Gesture.Press | button_handler.c:53-104 | A pressed edge followed by a confirming debounce expiry counts one click and dispatches the click event of the new count. |
| Gesture.IterateSplit | button_handler.c:53-142 | Repeating a handler sequence m + k times is m times and then k more, with the callbacks concatenated in order. |
| Gesture.PressesCount | button_handler.c:80-82 | n confirmed presses advance the counter by n modulo 256. |
| Gesture.QuietPresses | button_handler.c:86-103 | Presses that take the counter from 2 up to at most 255 dispatch nothing. |
| Gesture.LaterPressIsQuiet | button_handler.c:80-103 | A press from a count of 2 or more dispatches nothing, including the press that wraps 255 to 0. |
| Gesture.TwoPressesSingleThenDouble | button_handler.c:80-104 | Two presses within one window give the trace [single, double]. |
| Gesture.BurstReportsSingleThenDouble | button_handler.c:80-104 | Any burst of 2 to 256 presses within one window gives exactly [single, double]. |
| Gesture.QuietUpToWrap | button_handler.c:80-103 | From a count of 2 or more, the presses that bring the counter up to 255 and wrap it to 0 dispatch nothing. |
| Gesture.WrappingPressIsQuiet | button_handler.c:80-103 | The press that wraps the counter from 255 to 0 dispatches nothing. |
| Gesture.PressAtZero | button_handler.c:82-93 | A press that brings the counter back to 1 is a single click, whatever came before. |
| Gesture.FullCycleKeepsCounter | button_handler.c:80-82 | 256 presses bring the counter back to its start value. |
| Gesture.CounterWrapsToSingleClick | button_handler.c:80-93 | The 257th press within one window is reported as a single click again: [single, double, single]. |
| Gesture.PressAfterWindowIsSingle | button_handler.c:106-111 | A confirmed press after the double-click window expires gives [single]. |
| Gesture.HoldRepeatsLongPress | button_handler.c:128-136 | Holding the button through n repeat periods reports n long presses and changes no state. |
| Gesture.HeldPressThenRelease | button_handler.c:113-142 | A held press reports one long press, then one per repeat period. A release seen by the repeat timer ends the long press and stops repeating. |
| Gesture.ButtonHandler.constructor | button_handler.c:17-25 | The static initialisers: counter 0, every flag clear, no timer armed, no callback registered. |
| Gesture.ButtonHandler.ButtonEventInit | button_handler.c:27-32 | The new state is EventInit of the old. |
| Gesture.ButtonHandler.ButtonInterruptHandler | button_handler.c:53-59 | New state and events are those of Edge. |
| Gesture.ButtonHandler.DebounceTimerHandler | button_handler.c:61-78 | New state and events are those of Debounce. |
| Gesture.ButtonHandler.ProcessButtonClick | button_handler.c:80-104 | New state and events are those of Click. |
| Gesture.ButtonHandler.DoubleClickTimerHandler | button_handler.c:106-111 | New state is that of WindowExpiry. |
| Gesture.ButtonHandler.LongPressTimerHandler | button_handler.c:113-126 | New state and events are those of LongPressExpiry. |
| Gesture.ButtonHandler.LongPressRepeatTimerHandler | button_handler.c:128-142 | New state and events are those of RepeatExpiry. |
| Gesture.DoubleClickScenario | button_handler.c:27-104 | Initialise with all callbacks, then a press, a release edge and a second press: the trace is [single, double]. |
| Led.ModeIndex | led_control.h:13-19 | Each mode has an enumerator value below 4. |
| Led.NextMode | led_control.c:32-35 | The next mode's value is the current one plus one, modulo 4. |
| Led.Smoothed | led_control.c:83-103 | Increasing: the value grows by the step, or clamps to max and turns round. Decreasing: the value shrinks by the step, or clamps to min and turns round. A decrement below zero wraps to value − step + 2^32 (clamped to min if that is at or below min); an increment past 2^32 wraps to value + step − 2^32 before the comparison with max. |
| Led.SmoothedStaysInRange | led_control.c:83-103 | When no step wraps, the value stays within [min, max]. |
| Led.SmoothedUnderflowEscapes | led_control.c:96-97 | A decrement larger than the value leaves [min, max] with the direction still decreasing. |
| Led.DecrementUnderflows | led_control.c:96-97 | As written: value 5, step 10, bounds 0 and 255 give 4294967291, still decreasing. |
| Led.SmoothedFixed | led_control.c:83-103 | The corrected stepper keeps the value in [min, max], and turns round exactly when it lands on the bound it heads for. |
| Led.SmoothedFixedAgrees | led_control.c:83-103 | The corrected stepper equals the firmware's wherever the firmware does not wrap. |
| Led.SetMode | led_control.c:32-35 | Only the mode changes, to the next one. |
| Led.UpdateRgb | led_control.c:37-56 | Hue mode: only the hue changes, to hue + 1 modulo 360. Saturation or brightness mode: only that value and its direction flag change, as the stepper says. AFK: nothing changes. |
| Led.AdvanceLed1 | led_control.c:63-67 | The hue and saturation update of led_step stays below PWM_TOP_VALUE, and is the plain sum while that is below PWM_TOP_VALUE and the sum minus PWM_TOP_VALUE up to twice that. |
| Led.UpdateLed1 | led_control.c:58-81 | Only LED1's value changes, and it is at most 255. Hue and saturation modes add 3 or 10 modulo 255 (below the wrap the plain sum, past it the sum minus 255); brightness mode sets 255; AFK sets 0. |
| Led.FourModeChangesRestore | led_control.c:32-35 | Four mode changes restore the state and pass through all four modes. |
| Led.HandlersKeepBounded | led_control.c:15-81 | The initial state has hue < 360 and LED1's value ≤ 255, and every handler keeps both. |
| Led.SaturationDescends | led_control.c:94-101 | Holding the button in saturation mode lowers saturation by one step per repeat while it stays above the step. |
| Led.SaturationLeavesRange | led_control.c:96-97 | From the initial state in saturation mode, when the step does not divide 255, repeat (255 / step + 1) drives the saturation above 255. |
| Led.LedState.constructor | led_control.c:15-24 | The static initialisers: hue 306, saturation and brightness 255, LED1 value 0, AFK mode, both flags false. |
| Led.LedState.SetCurrentMode | led_control.c:32-35 | The new state is SetMode of the old. |
| Led.LedState.UpdateDutyCycleRgb | led_control.c:37-56 | The new state is UpdateRgb of the old. |
| Led.LedState.UpdateDutyCycleLed1 | led_control.c:58-81 | The new state is UpdateLed1 of the old. |
| Led.ChangeValueSmoothly | led_control.c:83-103 | The new value and direction are those of Smoothed. |
| Cli.CString | cli_control.c:86 | The string C sees is the prefix up to the first NUL, and holds no NUL. |
| Cli.CStringPrefix | cli_control.c:86 | Writing the terminator after the pending characters leaves the string C sees unchanged. |
| Cli.TokenLength | cli_control.c:120 | A token runs to the first space. |
| Cli.Tokens | cli_control.c:120-122 | strtok's tokens are non-empty and hold no space. TokensShape, TokensOfJoin and TokensOfJoinWord characterise them further. |
| Cli.TokensShape | cli_control.c:120-122 | There are no tokens exactly when the line is all spaces. |
| Cli.TokenLengthBeforeSpace | cli_control.c:120 | A token is not affected by what follows a space. |
| Cli.TokensOfJoin | cli_control.c:149-151 | The tokens of `a b` are those of a, then those of b. |
| Cli.UpperChar | cli_control.c:134 | toupper in the C locale changes only a to z, to A to Z. |
| Cli.Upper | cli_control.c:132-135 | Each character is upper-cased in place; the length is kept. |
| Cli.CommandWord | cli_control.c:129-135 | The command word is the first token cut to 63 characters and upper-cased. |
| Cli.DigitRun | cli_control.c:155-157 | atoi reads the maximal run of leading digits. |
| Cli.DigitChar | cli_control.c:164-165 | A printed digit reads back as its value. |
| Cli.Decimal | cli_control.c:164-165 | %d of a non-negative value is a non-empty digit string with no leading zero. |
| Cli.ValueOfDecimal | cli_control.c:164-165 | A printed value reads back as itself. |
| Cli.Atoi | cli_control.c:155-157 | atoi returns 0 on a string with no digit at all. AtoiSkipsSpace, AtoiStopsAtNonDigit, AtoiWithoutDigits and AtoiOfDecimal characterise it further. |
| Cli.AtoiDefined | cli_control.c:155-157 | atoi's result fits an int on every string of fewer than ten characters. |
| Cli.ShortAtoiFits | cli_control.c:155-157 | atoi of fewer than ten characters lies in the int range. |
| Cli.AtoiBound | cli_control.c:155-157 | atoi of n characters lies strictly between -10^n and 10^n. |
| Cli.ValueOfBound | cli_control.c:155-157 | d digits read as a value below 10^d. |
| Cli.AtoiOfDecimal | cli_control.c:155-157 | atoi inverts %d on n and on -n. |
| Cli.AtoiSkipsSpace | cli_control.c:155-157 | atoi skips leading white space. |
| Cli.AtoiStopsAtNonDigit | cli_control.c:155-157 | atoi stops at the first non-digit. |
| Cli.DigitRunOfPrefix | cli_control.c:155-157 | The digit run ends where a non-digit follows. |
| Cli.AtoiWithoutDigits | cli_control.c:155-157 | atoi returns 0 when no digit follows the optional sign in a string that does not start with white space, e.g. "x", "-x", "+". |
| Cli.Interpret | cli_control.c:117-220 | process_command calls a setter only for a line of at least four tokens: set_rgb only for the RGB command, set_hsv only for the HSV command and only with h ≤ 360, s ≤ 100 and v ≤ 100. RgbAppliedIff, HsvAppliedIff and UnknownCommandReply give each reply exactly. |
| Cli.RgbAppliedIff | cli_control.c:147-179 | The RGB colour is set exactly when three arguments exist and each reads as 0 to 255, and then to those values with "Color set" naming them. Too few tokens give the format error; out-of-range values give the values error. |
| Cli.UnsignedView | cli_control.c:188-190 | The uint32_t cast keeps a non-negative int and turns a negative one into at least 2^31. |
| Cli.HsvAppliedIff | cli_control.c:180-212 | HSV is applied exactly when three arguments exist with 0 ≤ h ≤ 360 and 0 ≤ s, v ≤ 100, and then with those values. Negative arguments are rejected, and the error replies are as for RGB. |
| Cli.CommandCaseIgnored | cli_control.c:129-147 | HELP, RGB and HSV get the same reply in any letter case. |
| Cli.UnknownCommandReply | cli_control.c:122-219 | An unknown first token gets "Unknown command: " and the token as typed. A blank line gets "Unknown command". No setter is called. |
| Cli.ExtraTokensIgnored | cli_control.c:147-186 | Words after the third argument change neither the reply nor the setter call. |
| Cli.SameFirstFourTokens | cli_control.c:147-186 | Two lines whose first four tokens agree are equally defined and get the same reply and setter call. |
| Cli.UpperCommand | cli_control.c:129-135 | The strncpy and in-place toupper loop compute the command word. |
| Cli.Accept | cli_control.c:81-105 | A terminator processes a non-empty line, then sends "\r\n" and empties the buffer. Another character is stored and echoed while fewer than 63 are pending; at 63 the buffer is emptied and the character dropped. The pending count stays below 64. |
| Cli.Feed | cli_control.c:78-109 | The RX_DONE loop never lets the pending line reach 64 characters. FeedStep, FeedPrefix, FeedCollects and TypedLine characterise its outputs. |
| Cli.FeedPrefix | cli_control.c:78-109 | The outputs of part of the input are a prefix of the outputs of all of it. |
| Cli.RenderAppend | cli_control.c:78-109 | What is written and called for consecutive outputs is the concatenation. |
| Cli.Echoes | cli_control.c:99 | Each character is echoed as itself. |
| Cli.FeedCollects | cli_control.c:96-100 | Characters that fit the buffer are stored and echoed one by one, and nothing else happens. |
| Cli.TypedLine | cli_control.c:81-100 | A typed line then a terminator: each character is echoed, the line is processed, "\r\n" is sent, and the buffer is empty again. |
| Cli.TypedLineRendered | cli_control.c:81-100 | For a typed line the host sees the echoes, the reply and "\r\n", and only the reply's setter is called. |
| Cli.AcceptRendered | cli_control.c:81-106 | For each branch of one received character: what is written (reply and "\r\n", "\r\n" alone, the echo, or nothing) and which setter is called. |
| Cli.FeedStep | cli_control.c:78-109 | One more loop pass appends that character's writes and calls to those so far, and leaves the pending line Accept gives. |
| Cli.ReplyRendered | cli_control.c:86-91 | A processed line writes the reply then "\r\n" and calls the reply's setter. |
| Cli.EchoesCallNothing | cli_control.c:96-100 | Echoes call no setter. |
| Cli.OverflowDiscards | cli_control.c:101-105 | The 64th character empties the buffer and is neither stored nor echoed. |
| Cli.CommandLine.constructor | cli_control.c:29-30 | The buffer starts empty. |
| Cli.CommandLine.ReceiveChar | cli_control.c:81-106 | One loop pass: the pending line, the strings written and the setters called are those of Accept, with Interpret answering the line. |
| Cli.CommandLine.ProcessLine | cli_control.c:83-90 | The pending line is NUL-terminated and answered as Interpret answers its text up to the first NUL, and the buffer is emptied. |
| Cli.CommandLine.OnRxDone | cli_control.c:75-111 | The RX_DONE loop over the received characters: pending line, writes and calls are those of Feed. |
| Pwm.WithDuty | pwm_control.c:71-89 | The addressed slot gets the duty value modulo 256, and the other slots keep theirs. A channel above 3 changes nothing. |
| Pwm.UpdateKeepsWithinTop | pwm_control.c:71-73 | From the zeroed struct, every slot stays at most PWM_TOP_VALUE. |
| Pwm.SlotsDetermineTable | pwm_control.c:18 | The four slots determine the table. |
| Pwm.LastWriteWins | pwm_control.c:71-89 | The last write to a channel wins, so a repeated call has the effect of one call. |
| Pwm.DifferentChannelsCommute | pwm_control.c:71-89 | Writes to different channels commute. |
| Pwm.PwmDuty.constructor | pwm_control.c:18 | The static struct starts zeroed. |
| Pwm.PwmDuty.UpdateDutyCycle | pwm_control.c:71-89 | The new table is WithDuty of the old. |

## Left out

- hsv_to_rgb_float (led_control.c:106-158) is floating-point colour arithmetic and is not part of this model. Nor is led_display_current_color, which feeds its results and LED1's value into the duty table.
- GPIO and PWM peripheral set-up and playback are not modelled: pin configuration, LED on/off, pwm_controller_init, the PWM timer and pwm_start_playback. The line level that is_button_pressed samples is an input.
- The USB CDC ACM plumbing is replaced by an input character sequence and output string sequences. This covers the class definition, port open/close, cli_init, cli_process, the app_usbd_cdc_acm_read re-arm loop and send_response's logging. A failed USB write is not modelled.
- The nrfx flash driver is not modelled. Erase and word write are direct updates of the page array. nvmc_write_complete_check, the ignored erase return code and write timing are left out.
- Timer deadlines, periods and restart semantics of app_timer are not modelled. DEBOUNCE_INTERVAL, DOUBLE_CLICK_INTERVAL and the LONG_PRESS intervals only decide which handler runs next, and a handler sequence is the input.
- Interleaving of interrupts and timer handlers is not modelled; each handler is one atomic step.
- main.c is not part of this model beyond the wiring it implies. A double click calls set_current_mode; a long press or repeat calls update_duty_cycle_RGB.
- NRF_DFU_APP_DATA_AREA_SIZE only places the page, so the page is indexed in words from its own start. SATURATION_STEP and BRIGHTNESS_STEP are not defined in the firmware files, so they are parameters (`saturationStep`, `brightnessStep`).
- The header declarations whose names differ from the definitions are not modelled. led_set_rgb_color and led_set_hsv_color have no body here, so they appear only as the Setter values the command line calls.
- FlashLog.NvmcContext.ReadLast: on an empty page the firmware reads its "size" from absolute address 0, outside the page. The model takes the size-mismatch branch that such a read leads to: return 0 and set the erase flag. It does not model a word at address 0 that happens to equal the block size.
- FlashLog.ScanFrom: the firmware advances a 32-bit address by 1 + size/4 words, and the model's word index does not wrap. For the size words 0xFFFFFFFC, 0xFFFFFFFD and 0xFFFFFFFE the step is 2^32 bytes, so the address does not move: the loop of nvmc_find_last_address never ends, and neither does nvmc_read_last_data. Somewhat smaller size words move the address backwards, so the firmware re-reads earlier words (and can loop) or reads below the page. For all these words the model reports a full page instead, so the model's read returns 0 and sets the erase flag where the firmware hangs or reads elsewhere.
- FlashLog.WillErase: the firmware computes address + block size + 4 in 32 bits, which wraps for block sizes near 2^32 and then skips the erase. The model's sum does not wrap; for block sizes of at most 4092 bytes, the only ones the write members accept, the two agree.
- FlashLog.WriteSpec, FlashLog.NvmcContext.WriteData, FlashLog.WriteKeepsFormatted, FlashLog.RoundTrip, FlashLog.WriteRecord and FlashLog.WriteThenReboot require a block size of at most 4092 bytes (size word plus payload within the page). nvmc_write_data accepts any block size; the writes past the page end that a larger one causes are not modelled.
- FlashLog.NvmcContext.WriteData requires the words it will write to be erased unless the erase path runs. Flash cannot set bits back to one, and the firmware does not check this. FlashLog.InitializeAloneMayOverwrite shows a call sequence that breaks it. FlashLog.FormattedIsWritable derives it from a well-formed log, and FlashLog.ReadLeavesFormatted shows that a successful read leaves a well-formed log only when every word after the sentinel it stops at is erased. The firmware does not guarantee that: FlashLog.StrayWordSurvivesRead gives a page with a stray written word past the sentinel that reads successfully, after which the next write neither erases nor finds its words erased.
- Cli.Interpret requires the three arguments of an RGB or HSV command to convert without overflow, because atoi is undefined behaviour beyond the int range. Cli.CommandLine.ReceiveChar and Cli.CommandLine.OnRxDone require the same of every completed line.
- Cli.CommandLine.ProcessLine interprets the line after the NUL terminator is placed. strtok's NUL writes into the buffer are not modelled, because nothing reads the buffer afterwards before it is overwritten.
- The class methods model the firmware as written. The corrected write test and stepper of the findings below are separate functions and are not wired into the classes.

## Findings

| source | as written | input that shows it | evidently intended | confidence | as-written member | corrected member |
|---|---|---|---|---|---|---|
| nvmc_control.c:124-126 | The erase test uses `>`. A record that ends exactly at the page end is written without an erase, so no sentinel follows it. The next boot's scan runs off the page, reports it full, and the read returns 0. | One 4092-byte record written to an erased page (or 256 records of 12 bytes) | Erase also when the record would end exactly at the page end (`>=`), so the last record can always be read back | not executed | FlashLog.ExactFillIsLost, FlashLog.FullPageRecordIsLost | FlashLog.WriteFixed, FlashLog.RoundTripFixed |
| led_control.c:96-101 | change_value_smoothly subtracts the step from the uint32_t value before comparing with min. A value below the step wraps to about 2^32, which is above min, so it is neither clamped nor turned round. | Saturation 5, step 10, decreasing: the result is 4294967291. From the initial saturation 255, any step from 1 to 255 that does not divide 255 reaches such a value by repeated long presses. | Compare before stepping: clamp to min and turn round when the step would reach or pass min | not executed | Led.DecrementUnderflows, Led.SaturationLeavesRange | Led.SmoothedFixed, Led.SmoothedFixedAgrees |
