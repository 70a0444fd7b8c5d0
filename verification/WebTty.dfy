/** The server end of the WebTTY protocol (third-part/gotty/webtty/webtty.go): frames
    out, messages in. The JSON of a resize message is an uninterpreted partial function. */
module WebTty {
  import opened Bytes
  import Base64

  const INPUT: byte := '1' as byte
  const PING: byte := '2' as byte
  const RESIZE_TERMINAL: byte := '3' as byte

  const OUTPUT: byte := '1' as byte
  const PONG: byte := '2' as byte
  const SET_WINDOW_TITLE: byte := '3' as byte
  const SET_PREFERENCES: byte := '4' as byte
  const SET_RECONNECT: byte := '5' as byte

  type Message = seq<byte>

  type ParseResize = seq<byte> -> Option<(int, int)>

  /** `reconnectJson` is what `json.Marshal` makes of `reconnect`. */
  datatype Config = Config(
    windowTitle: seq<byte>, permitWrite: bool, columns: int, rows: int,
    reconnect: int, reconnectJson: seq<byte>, masterPrefs: Option<seq<byte>>)
  {
    predicate FixedSize() {
      columns != 0 && rows != 0
    }
  }

  // ----- frames out -----

  function OutputFrame(data: seq<byte>): Message {
    [OUTPUT] + Base64.Encode(data)
  }

  const PONG_FRAME: Message := [PONG]

  function InitFrames(cfg: Config): seq<Message> {
    (if |cfg.windowTitle| != 0 then [[SET_WINDOW_TITLE] + cfg.windowTitle] else [])
    + (if cfg.reconnect > 0 then [[SET_RECONNECT] + cfg.reconnectJson] else [])
    + (if cfg.masterPrefs.Some? then [[SET_PREFERENCES] + cfg.masterPrefs.value] else [])
  }

  // ----- messages in -----

  datatype Effect = Nothing | ToSlave(data: seq<byte>) | SendPong | Resize(columns: int, rows: int) | Malformed

  function Handle(cfg: Config, parse: ParseResize, data: Message): Effect {
    if |data| == 0 then Malformed
    else if data[0] == INPUT then
      if !cfg.permitWrite || |data| <= 1 then Nothing else ToSlave(data[1..])
    else if data[0] == PING then SendPong
    else if data[0] == RESIZE_TERMINAL then
      if cfg.FixedSize() then Nothing
      else if |data| <= 1 then Malformed
      else
        match parse(data[1..])
        case None => Malformed
        case Some((columns, rows)) =>
          Resize(if cfg.columns == 0 then columns else cfg.columns, if cfg.rows == 0 then rows else cfg.rows)
    else Malformed
  }

  function SlaveBytes(effect: Effect): seq<byte> {
    if effect.ToSlave? then effect.data else []
  }

  function PongOf(effect: Effect): seq<Message> {
    if effect.SendPong? then [PONG_FRAME] else []
  }

  function SizeOf(effect: Effect): seq<(int, int)> {
    if effect.Resize? then [(effect.columns, effect.rows)] else []
  }

  /** A message that ends the session: empty, of unknown type, or a resize that does
      not parse on a terminal whose size is not fixed. */
  predicate IsMalformed(cfg: Config, parse: ParseResize, m: Message) {
    || m == []
    || m[0] !in {INPUT, PING, RESIZE_TERMINAL}
    || (m[0] == RESIZE_TERMINAL && !cfg.FixedSize() && (m[1..] == [] || parse(m[1..]) == None))
  }

  function BeforeMalformed(cfg: Config, parse: ParseResize, msgs: seq<Message>): (good: seq<Message>)
    ensures good <= msgs && forall m <- good :: !IsMalformed(cfg, parse, m)
    ensures good == msgs || IsMalformed(cfg, parse, msgs[|good|])
  {
    if msgs == [] || IsMalformed(cfg, parse, msgs[0]) then []
    else [msgs[0]] + BeforeMalformed(cfg, parse, msgs[1..])
  }

  function Tail(m: Message): seq<byte> {
    if m != [] && m[0] == INPUT then m[1..] else []
  }

  function InputTails(msgs: seq<Message>): seq<byte> {
    if msgs == [] then [] else Tail(msgs[0]) + InputTails(msgs[1..])
  }

  function Answer(m: Message): seq<Message> {
    if m != [] && m[0] == PING then [PONG_FRAME] else []
  }

  function Pongs(msgs: seq<Message>): seq<Message> {
    if msgs == [] then [] else Answer(msgs[0]) + Pongs(msgs[1..])
  }

  lemma {:induction false} InputTailsSnoc(msgs: seq<Message>, m: Message)
    ensures InputTails(msgs + [m]) == InputTails(msgs) + Tail(m)
  {
    hide Tail;
    var all := msgs + [m];
    if msgs == [] {
      assert all[1..] == [] && [] + Tail(m) == Tail(m) + [];
    } else {
      assert all[1..] == msgs[1..] + [m] && all[0] == msgs[0];
      InputTailsSnoc(msgs[1..], m);
      AppendAssociates(Tail(msgs[0]), InputTails(msgs[1..]), Tail(m));
    }
  }

  lemma {:induction false} PongsSnoc(msgs: seq<Message>, m: Message)
    ensures Pongs(msgs + [m]) == Pongs(msgs) + Answer(m)
  {
    hide Answer;
    var all := msgs + [m];
    if msgs == [] {
      assert all[1..] == [] && [] + Answer(m) == Answer(m) + [];
    } else {
      assert all[1..] == msgs[1..] + [m] && all[0] == msgs[0];
      PongsSnoc(msgs[1..], m);
      AppendAssociates(Answer(msgs[0]), Pongs(msgs[1..]), Answer(m));
    }
  }

  /** What the slave is given of well-formed messages. */
  function Inputs(cfg: Config, msgs: seq<Message>): seq<byte> {
    if cfg.permitWrite then InputTails(msgs) else []
  }

  /** The size a message gives the terminal when no size is fixed: columns and rows as the
      browser has them, but for the one the configuration has. */
  function ResizeOf(cfg: Config, parse: ParseResize, m: Message): seq<(int, int)> {
    if |m| <= 1 || m[0] != RESIZE_TERMINAL || cfg.FixedSize() then []
    else
      match parse(m[1..])
      case None => []
      case Some(size) =>
        [(if cfg.columns == 0 then size.0 else cfg.columns, if cfg.rows == 0 then size.1 else cfg.rows)]
  }

  function Sizes(cfg: Config, parse: ParseResize, msgs: seq<Message>): seq<(int, int)> {
    if msgs == [] then [] else ResizeOf(cfg, parse, msgs[0]) + Sizes(cfg, parse, msgs[1..])
  }

  lemma {:induction false} SizesSnoc(cfg: Config, parse: ParseResize, msgs: seq<Message>, m: Message)
    ensures Sizes(cfg, parse, msgs + [m]) == Sizes(cfg, parse, msgs) + ResizeOf(cfg, parse, m)
  {
    hide ResizeOf;
    var all := msgs + [m];
    if msgs == [] {
      assert all[1..] == [] && [] + ResizeOf(cfg, parse, m) == ResizeOf(cfg, parse, m) + [];
    } else {
      assert all[1..] == msgs[1..] + [m] && all[0] == msgs[0];
      SizesSnoc(cfg, parse, msgs[1..], m);
      AppendAssociates(ResizeOf(cfg, parse, msgs[0]), Sizes(cfg, parse, msgs[1..]), ResizeOf(cfg, parse, m));
    }
  }

  lemma {:induction false} BeforeMalformedPrefix(cfg: Config, parse: ParseResize, msgs: seq<Message>, n: nat)
    requires n <= |msgs| && forall m <- msgs[..n] :: !IsMalformed(cfg, parse, m)
    requires n == |msgs| || IsMalformed(cfg, parse, msgs[n])
    ensures BeforeMalformed(cfg, parse, msgs) == msgs[..n]
  {
    if n > 0 {
      assert msgs[0] in msgs[..n];
      assert msgs[1..][..n - 1] == msgs[..n][1..];
      BeforeMalformedPrefix(cfg, parse, msgs[1..], n - 1);
    }
  }

  // ----- the object -----

  /** `toSlave`, `sent` and `sizes` are what the slave and the connection were given. */
  class WebTTY {
    const cfg: Config
    const parse: ParseResize
    var toSlave: seq<byte>
    var sent: seq<Message>
    var sizes: seq<(int, int)>

    constructor (cfg: Config, parse: ParseResize)
      ensures this.cfg == cfg && this.parse == parse
      ensures toSlave == [] && sent == [] && sizes == []
    {
      this.cfg, this.parse := cfg, parse;
      toSlave, sent, sizes := [], [], [];
    }

    method MasterWrite(data: Message)
      modifies this`sent
      ensures sent == old(sent) + [data]
    {
      sent := sent + [data];
    }

    method SendInitializeMessage()
      modifies this`sent
      ensures sent == old(sent) + InitFrames(cfg)
    {
      if |cfg.windowTitle| != 0 {
        MasterWrite([SET_WINDOW_TITLE] + cfg.windowTitle);
      }
      if cfg.reconnect > 0 {
        MasterWrite([SET_RECONNECT] + cfg.reconnectJson);
      }
      if cfg.masterPrefs.Some? {
        MasterWrite([SET_PREFERENCES] + cfg.masterPrefs.value);
      }
    }

    method HandleSlaveReadEvent(data: seq<byte>)
      modifies this`sent
      ensures sent == old(sent) + [OutputFrame(data)]
    {
      var safeMessage := Base64.Encode(data);
      MasterWrite([OUTPUT] + safeMessage);
    }

    method HandleMasterReadEvent(data: Message) returns (ok: bool)
      modifies this
      ensures ok <==> !IsMalformed(cfg, parse, data)
      ensures toSlave == old(toSlave) + (if cfg.permitWrite then Tail(data) else [])
      ensures sent == old(sent) + Answer(data)
      ensures sizes == old(sizes) + ResizeOf(cfg, parse, data)
    {
      if |data| == 0 {
        return false;
      }
      if data[0] == INPUT {
        if !cfg.permitWrite {
          return true;
        }
        if |data| <= 1 {
          return true;
        }
        toSlave := toSlave + data[1..];
      } else if data[0] == PING {
        MasterWrite([PONG]);
      } else if data[0] == RESIZE_TERMINAL {
        if cfg.columns != 0 && cfg.rows != 0 {
          return true;
        }
        if |data| <= 1 {
          return false;
        }
        var args := parse(data[1..]);
        if args == None {
          return false;
        }
        var rows := cfg.rows;
        if rows == 0 {
          rows := args.value.1;
        }
        var columns := cfg.columns;
        if columns == 0 {
          columns := args.value.0;
        }
        sizes := sizes + [(columns, rows)];
      } else {
        return false;
      }
      return true;
    }

    /** The loop that reads messages from the browser until one is malformed. The slave
        receives the concatenated tails of the Input messages before that one when
        writing is permitted, nothing otherwise; every ping is answered once; and the
        terminal is resized as the messages say. */
    method MasterLoop(msgs: seq<Message>) returns (handled: nat)
      modifies this
      ensures var good := BeforeMalformed(cfg, parse, msgs);
              && handled == |good|
              && toSlave == old(toSlave) + Inputs(cfg, good)
              && sent == old(sent) + Pongs(good)
              && sizes == old(sizes) + Sizes(cfg, parse, good)
    {
      handled := 0;
      ghost var input: seq<byte>, pongs: seq<Message>, resized: seq<(int, int)> := [], [], [];
      assert msgs[..0] == [];
      while handled < |msgs|
        invariant 0 <= handled <= |msgs|
        invariant forall m <- msgs[..handled] :: !IsMalformed(cfg, parse, m)
        invariant toSlave == old(toSlave) + input && input == Inputs(cfg, msgs[..handled])
        invariant sent == old(sent) + pongs && pongs == Pongs(msgs[..handled])
        invariant sizes == old(sizes) + resized && resized == Sizes(cfg, parse, msgs[..handled])
      {
        ghost var m := msgs[handled];
        NextMessage(cfg, parse, msgs, handled);
        var ok := HandleMasterReadEvent(msgs[handled]);
        if !ok {
          BeforeMalformedPrefix(cfg, parse, msgs, handled);
          return;
        }
        AppendAssociates(old(toSlave), input, if cfg.permitWrite then Tail(m) else []);
        AppendAssociates(old(sent), pongs, Answer(m));
        AppendAssociates(old(sizes), resized, ResizeOf(cfg, parse, m));
        input := input + (if cfg.permitWrite then Tail(m) else []);
        pongs, resized := pongs + Answer(m), resized + ResizeOf(cfg, parse, m);
        handled := handled + 1;
      }
      BeforeMalformedPrefix(cfg, parse, msgs, handled);
    }
  }

  /** What the loop adds with message `k`. */
  lemma NextMessage(cfg: Config, parse: ParseResize, msgs: seq<Message>, k: nat)
    requires k < |msgs|
    ensures Inputs(cfg, msgs[..k + 1]) == Inputs(cfg, msgs[..k]) + (if cfg.permitWrite then Tail(msgs[k]) else [])
    ensures Pongs(msgs[..k + 1]) == Pongs(msgs[..k]) + Answer(msgs[k])
    ensures Sizes(cfg, parse, msgs[..k + 1]) == Sizes(cfg, parse, msgs[..k]) + ResizeOf(cfg, parse, msgs[k])
    ensures forall m :: m in msgs[..k + 1] <==> m in msgs[..k] || m == msgs[k]
  {
    assert msgs[..k + 1] == msgs[..k] + [msgs[k]];
    hide *;
    InputsSnoc(cfg, msgs[..k], msgs[k]);
    PongsSnoc(msgs[..k], msgs[k]);
    SizesSnoc(cfg, parse, msgs[..k], msgs[k]);
  }

  lemma InputsSnoc(cfg: Config, msgs: seq<Message>, m: Message)
    ensures Inputs(cfg, msgs + [m]) == Inputs(cfg, msgs) + (if cfg.permitWrite then Tail(m) else [])
  {
    hide Tail;
    hide InputTails;
    InputTailsSnoc(msgs, m);
  }

  /** What the code does with a message, in terms of what it is. */
  lemma HandleMeansMessage(cfg: Config, parse: ParseResize, m: Message)
    ensures Handle(cfg, parse, m).Malformed? <==> IsMalformed(cfg, parse, m)
    ensures SlaveBytes(Handle(cfg, parse, m)) == if cfg.permitWrite then Tail(m) else []
    ensures PongOf(Handle(cfg, parse, m)) == Answer(m)
    ensures SizeOf(Handle(cfg, parse, m)) == ResizeOf(cfg, parse, m)
  {
  }

  /** The initial messages come as title, reconnect time, preferences. */
  lemma InitFramesInOrder(cfg: Config)
    ensures var frames := InitFrames(cfg);
            && (forall f <- frames :: f != [] && f[0] in {SET_WINDOW_TITLE, SET_RECONNECT, SET_PREFERENCES})
            && forall i, j | 0 <= i < j < |frames| ::
                 (frames[i][0] == SET_WINDOW_TITLE && frames[j][0] != SET_WINDOW_TITLE)
                 || (frames[i][0] == SET_RECONNECT && frames[j][0] == SET_PREFERENCES)
  {
  }
}
