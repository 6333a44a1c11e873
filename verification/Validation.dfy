/** Which commands validation accepts, said of the text they put on the wire. */
module Validation {
  import opened Bytes
  import opened HeaderBlock
  import opened Commands

  /** Text that stays on its line whichever terminator the switch splits on. */
  predicate OneLine(s: Bytes)
  {
    forall i :: 0 <= i < |s| ==> s[i] != '\n' && s[i] != '\r'
  }

  lemma TerminatorIff(s: Bytes)
    ensures HasTerminator(s) <==> !OneLine(s)
  {
  }

  lemma OneLineJoins(a: Bytes, b: Bytes)
    ensures OneLine(a + b) <==> OneLine(a) && OneLine(b)
  {
    if OneLine(a + b) {
      assert forall i :: 0 <= i < |a| ==> (a + b)[i] == a[i];
      assert forall i :: 0 <= i < |b| ==> (a + b)[|a| + i] == b[i];
    }
  }

  ghost predicate AllOneLine(args: seq<Bytes>)
  {
    forall i :: 0 <= i < |args| ==> OneLine(args[i])
  }

  lemma {:induction false} WordsOneLine(args: seq<Bytes>)
    ensures OneLine(Words(args)) <==> AllOneLine(args)
  {
    if args != [] {
      WordsOneLine(args[1..]);
      OneLineJoins([' '] + args[0], Words(args[1..]));
      OneLineJoins([' '], args[0]);
      assert OneLine([' ']);
      assert forall i :: 1 <= i < |args| ==> args[i] == args[1..][i - 1];
    }
  }

  lemma CommandOneLine(word: Bytes, args: seq<Bytes>)
    requires OneLine(word)
    ensures OneLine(word + Words(args)) <==> AllOneLine(args)
  {
    OneLineJoins(word, Words(args));
    WordsOneLine(args);
  }

  /** Validation passes exactly when every field it looks at is one line. */
  lemma ValidateFields(c: EslCommand, fields: seq<(Bytes, string)>)
    requires Checked(c) == Ok(fields)
    ensures Validate(c).Ok? <==> forall i :: 0 <= i < |fields| ==> OneLine(fields[i].0)
  {
    forall i | 0 <= i < |fields| ensures HasTerminator(fields[i].0) <==> !OneLine(fields[i].0) {
      TerminatorIff(fields[i].0);
    }
  }

  lemma TwoFields(a: (Bytes, string), b: (Bytes, string))
    ensures (forall i :: 0 <= i < |[a, b]| ==> OneLine([a, b][i].0)) <==> OneLine(a.0) && OneLine(b.0)
    ensures AllOneLine([a.0, b.0]) <==> OneLine(a.0) && OneLine(b.0)
    ensures (forall i :: 0 <= i < |[a]| ==> OneLine([a][i].0)) <==> OneLine(a.0)
    ensures AllOneLine([a.0]) <==> OneLine(a.0)
  {
    assert [a, b][0] == a && [a, b][1] == b && [a.0, b.0][0] == a.0 && [a.0, b.0][1] == b.0;
    assert [a][0] == a && [a.0][0] == a.0;
  }

  /** Commands with nothing of the caller's in them always pass, on a line of their own. */
  lemma ConstantPasses(known: seq<Bytes>, c: EslCommand)
    requires c.Exit? || c.NoLog? || c.NoOp? || c.Linger? || c.NoLinger? || c.Resume? || c.NoEvents? || c.DivertEvents?
             || c.Connect? || c.FilterDeleteAll?
    ensures Validate(c).Ok? && OneLine(ShapeOf(known, c).line)
  {
    var (word, args) := Simple(c);
    ValidateFields(c, []);
    if c.Linger? || c.DivertEvents? || c.FilterDeleteAll? {
      ConstantArguments(c);
    } else {
      ConstantWord(c);
    }
    CommandOneLine(word, args);
  }

  lemma ConstantWord(c: EslCommand)
    requires c.Exit? || c.NoLog? || c.NoOp? || c.NoLinger? || c.Resume? || c.NoEvents? || c.Connect?
    ensures OneLine(Simple(c).0) && Simple(c).1 == []
  {
  }

  lemma ConstantArguments(c: EslCommand)
    requires c.Linger? || c.DivertEvents? || c.FilterDeleteAll?
    ensures OneLine(Simple(c).0) && AllOneLine(Simple(c).1)
  {
    if c.Linger? && c.timeout.Some? {
      DecimalParses(c.timeout.value);
      TerminatorIff(Decimal(c.timeout.value));
    }
  }

  lemma OneFieldIff(known: seq<Bytes>, c: EslCommand)
    requires c.Auth? || c.Api? || c.BgApi? || c.Log? || c.NixEvent? || c.GetVar?
    ensures Validate(c).Ok? <==> OneLine(ShapeOf(known, c).line)
  {
    var (word, args) := Simple(c);
    var field := Checked(c).value[0];
    ValidateFields(c, [field]);
    TwoFields(field, field);
    assert args == [field.0];
    CommandOneLine(word, args);
  }

  lemma TwoFieldsIff(known: seq<Bytes>, c: EslCommand)
    requires c.Events? || c.Filter?
    ensures Validate(c).Ok? <==> OneLine(ShapeOf(known, c).line)
  {
    var (word, args) := Simple(c);
    var a, b := Checked(c).value[0], Checked(c).value[1];
    ValidateFields(c, [a, b]);
    TwoFields(a, b);
    assert args == [a.0, b.0];
    CommandOneLine(word, args);
  }

  lemma UserAuthIff(known: seq<Bytes>, c: EslCommand)
    requires c.UserAuth?
    ensures Validate(c).Ok? <==> OneLine(ShapeOf(known, c).line)
  {
    var a, b := (c.user, "user"), (c.password, "password");
    var text := c.user + ":" + c.password;
    ValidateFields(c, [a, b]);
    TwoFields(a, b);
    TwoFields((text, ""), a);
    OneLineJoins(c.user + ":", c.password);
    OneLineJoins(c.user, ":");
    CommandOneLine("userauth", [text]);
  }

  lemma MyEventsIff(known: seq<Bytes>, c: EslCommand)
    requires c.MyEvents?
    ensures Validate(c).Ok? <==> OneLine(ShapeOf(known, c).line)
  {
    var a := (c.format, "myevents format");
    if c.uuid.Some? {
      var b := (c.uuid.value, "myevents uuid");
      assert [a] + Present(c.uuid, "myevents uuid") == [a, b];
      ValidateFields(c, [a, b]);
      TwoFields(a, b);
      TwoFields(b, a);
      CommandOneLine("myevents", [c.uuid.value, c.format]);
    } else {
      assert [a] + Present(c.uuid, "myevents uuid") == [a];
      ValidateFields(c, [a]);
      TwoFields(a, a);
      CommandOneLine("myevents", [c.format]);
    }
  }

  lemma FilterDeleteIff(known: seq<Bytes>, c: EslCommand)
    requires c.FilterDelete?
    ensures Validate(c).Ok? <==> OneLine(ShapeOf(known, c).line) && (c.value'.Some? ==> OneLine(c.value'.value))
  {
    var a := (c.header, "filter delete header");
    var args := Simple(c).1;
    CommandOneLine("filter", args);
    if c.value'.Some? {
      var b := (c.value'.value, "filter delete value");
      assert [a] + Present(c.value', "filter delete value") == [a, b];
      ValidateFields(c, [a, b]);
      TwoFields(a, b);
    } else {
      assert [a] + Present(c.value', "filter delete value") == [a];
      ValidateFields(c, [a]);
      TwoFields(a, a);
    }
    if c.header != "all" {
      assert args[1] == c.header;
      assert c.value'.Some? ==> args[2] == c.value'.value;
      assert args[0] == "delete" && OneLine("delete");
    }
  }

  /** A command line with an optional word. */
  lemma OptionalOneLine(word: Bytes, arg: Option<Bytes>)
    requires OneLine(word)
    ensures OneLine(word + OptionalWord(arg)) <==> arg.Some? ==> OneLine(arg.value)
  {
    OneLineJoins(word, OptionalWord(arg));
    if arg.Some? {
      OneLineJoins([' '], arg.value);
      assert OneLine([' ']);
    }
  }

  lemma SendMsgIff(known: seq<Bytes>, c: EslCommand)
    requires c.SendMsg?
    ensures Validate(c).Ok? <==> OneLine(ShapeOf(known, c).line)
  {
    OptionalOneLine("sendmsg", c.uuid);
    ValidateFields(c, Present(c.uuid, "sendmsg uuid"));
    if c.uuid.Some? {
      TwoFields((c.uuid.value, "sendmsg uuid"), (c.uuid.value, ""));
    }
  }

  lemma SendEventIff(known: seq<Bytes>, c: EslCommand)
    requires c.SendEvent?
    ensures Validate(c).Ok? <==> NameOf(c.event).Some? && OneLine(ShapeOf(known, c).line)
    ensures NameOf(c.event).None? ==> Validate(c) == Err(MissingEventName)
  {
    var name := NameOf(c.event);
    OptionalOneLine("sendevent", name);
    if name.Some? {
      var field := (name.value, "sendevent event name");
      ValidateFields(c, [field]);
      TwoFields(field, field);
    }
  }

  lemma ExecuteIff(known: seq<Bytes>, c: EslCommand)
    requires c.Execute?
    ensures Validate(c).Ok? <==> OneLine(ShapeOf(known, c).line) && OneLine(c.app) && (c.args.Some? ==> OneLine(c.args.value))
  {
    OptionalOneLine("sendmsg", c.uuid);
    var fields := [(c.app, "execute app")] + Present(c.args, "execute args") + Present(c.uuid, "execute uuid");
    ValidateFields(c, fields);
    assert fields[0].0 == c.app;
    assert c.args.Some? ==> fields[1].0 == c.args.value;
    assert c.uuid.Some? ==> fields[|fields| - 1].0 == c.uuid.value;
    forall i | 0 <= i < |fields|
      ensures fields[i].0 == c.app || (c.args.Some? && fields[i].0 == c.args.value) || (c.uuid.Some? && fields[i].0 == c.uuid.value)
    {
    }
  }

  /** What the caller put in a command besides its command line, that must be one line too. */
  ghost predicate RestOneLine(c: EslCommand)
  {
    match c
    case FilterDelete(_, value) => value.Some? ==> OneLine(value.value)
    case Execute(app, args, _, _) => OneLine(app) && (args.Some? ==> OneLine(args.value))
    case SendEvent(event) => NameOf(event).Some?
    case _ => true
  }

  /** Validation, exactly: a command passes if and only if the line it would send is one line, with no
      carriage return either, and so is what an execution or a deletion carries beside it; an event
      must have a name. */
  lemma ValidateIff(known: seq<Bytes>, c: EslCommand)
    ensures Validate(c).Ok? <==> OneLine(ShapeOf(known, c).line) && RestOneLine(c)
  {
    if c.SendMsg? {
      SendMsgIff(known, c);
    } else if c.SendEvent? {
      SendEventIff(known, c);
    } else if c.Execute? {
      ExecuteIff(known, c);
    } else if c.UserAuth? {
      UserAuthIff(known, c);
    } else if c.MyEvents? {
      MyEventsIff(known, c);
    } else if c.FilterDelete? {
      FilterDeleteIff(known, c);
    } else if c.Events? || c.Filter? {
      TwoFieldsIff(known, c);
    } else if c.Auth? || c.Api? || c.BgApi? || c.Log? || c.NixEvent? || c.GetVar? {
      OneFieldIff(known, c);
    } else {
      ConstantPasses(known, c);
    }
  }
}
