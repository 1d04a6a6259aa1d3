/** src/algorithm.cc as the source has it: algorithmData updated in place by algorithm_UI, and the flash image
  written step by step by algorithm_idle, which runs algorithm_UI while it waits. */
module Algorithm {
  import B = Buttons
  import opened UiModel
  import opened Persistence

  class AlgorithmData {
    var editMode: nat
    var functions: seq<nat>
    var lastEncSw: seq<bool>
    var holdCounter: seq<nat>
    var encoderValue: seq<int>
    var potValue: seq<int>
    var processorParams: seq<seq<int>>
    var writeToFlash: bool

    /** peaks::processors */
    var processors: seq<Processor>

    /** The page in flash, and the buffer a row is written from. */
    var flash: Flash
    var pageBuffer: Flash

    ghost function View(): Ui
      reads this
      requires |lastEncSw| == 2 && |holdCounter| == 2
    {
      Ui(Settings(editMode, functions), B.Button(lastEncSw[0], holdCounter[0]), B.Button(lastEncSw[1], holdCounter[1]),
         encoderValue, potValue, processorParams, processors, writeToFlash)
    }

    ghost predicate Valid()
      reads this
    {
      |lastEncSw| == 2 && |holdCounter| == 2 && WellFormed(View())
    }

    method SetFunction(index: int, f: nat)
      requires Valid() && f < FUNCTION_LAST && (editMode >= FIRST ==> 0 <= index < 2)
      modifies this`functions, this`processors
      ensures Valid() && View() == UiModel.SetFunction(old(View()), index, f)
    {
      if editMode == SPLIT || editMode == TWIN {
        functions := [f, f];
        processors := processors[0 := processors[0].(selected := FunctionTable(f, 0))];
        processors := processors[1 := processors[1].(selected := FunctionTable(f, 1))];
      } else {
        functions := functions[index := f];
        processors := processors[index := processors[index].(selected := FunctionTable(f, index))];
      }
    }

    /** processors[p].set_parameter(k, v) */
    method SetParameter(p: nat, k: nat, v: int)
      requires Valid() && p < 2 && k < 4
      modifies this`processors
      ensures Valid() && View() == UiModel.SetParameter(old(View()), p, k, v)
    {
      processors := processors[p := processors[p].(params := processors[p].params[k := Last(v)])];
    }

    /** processorParams[p][k] = v */
    method CopyParameter(p: nat, k: nat, v: int)
      requires Valid() && p < 2 && k < 4
      modifies this`processorParams
      ensures Valid() && View() == UiModel.CopyParameter(old(View()), p, k, v)
    {
      processorParams := processorParams[p := processorParams[p][k := v]];
    }

    method LeftButton(encSW: bool)
      requires Valid()
      modifies this`editMode, this`lastEncSw, this`holdCounter, this`writeToFlash
      ensures Valid() && View() == UiModel.LeftButton(old(View()), encSW)
    {
      if encSW && !lastEncSw[0] {
        if holdCounter[0] < B.HOLD {
          editMode := Toggled(editMode);
          writeToFlash := true;
        }
      } else if !encSW && lastEncSw[0] {
        holdCounter := holdCounter[0 := 0];
      }
      if !encSW {
        holdCounter := holdCounter[0 := holdCounter[0] + 1];
        if holdCounter[0] == B.HOLD {
          editMode := Switched(editMode);
          writeToFlash := true;
        }
      }
      lastEncSw := lastEncSw[0 := encSW];
    }

    method RightButton(encSW: bool)
      requires Valid()
      modifies this`functions, this`processors, this`lastEncSw, this`holdCounter, this`writeToFlash
      ensures Valid() && View() == UiModel.RightButton(old(View()), encSW)
    {
      var f := if editMode == SECOND then functions[1] else functions[0];
      if encSW && !lastEncSw[1] {
        if holdCounter[1] < B.HOLD {
          SetFunction(editMode - FIRST, NextFunction(f));
          writeToFlash := true;
        }
      } else if !encSW && lastEncSw[1] {
        holdCounter := holdCounter[1 := 0];
      }
      if !encSW {
        holdCounter := holdCounter[1 := holdCounter[1] + 1];
        if holdCounter[1] == B.HOLD {
          SetFunction(editMode - FIRST, OtherBank(f));
          writeToFlash := true;
        }
      }
      lastEncSw := lastEncSw[1 := encSW];
    }

    method TurnEncoder(i: nat, enc: int)
      requires Valid() && i < 2
      modifies this`encoderValue, this`processors, this`processorParams
      ensures Valid() && View() == Encoder(old(View()), i, enc)
    {
      if enc != 0 {
        encoderValue := encoderValue[i := ApplyRange(encoderValue[i] + ENCODER_SCALE * enc)];
        if editMode == TWIN {
          SetParameter(0, i, encoderValue[i]);
          SetParameter(1, i, encoderValue[i]);
          CopyParameter(0, i, encoderValue[i]);
          CopyParameter(1, i, encoderValue[i]);
        } else if editMode == SPLIT {
          SetParameter(0, i, encoderValue[i]);
          CopyParameter(0, i, encoderValue[i]);
        } else {
          var which := editMode - FIRST;
          var v := ApplyRange(processorParams[which][i] + ENCODER_SCALE * enc);
          SetParameter(which, i, v);
          CopyParameter(which, i, v);
        }
      }
    }

    method MovePot(i: nat, pot: int)
      requires Valid() && i < 2
      modifies this`potValue, this`processors, this`processorParams
      ensures Valid() && View() == Pot(old(View()), i, pot)
    {
      var delta := pot - potValue[i];
      if delta < 0 {
        delta := -delta;
      }
      if delta < POT_THRESHOLD {
        return;
      }
      potValue := potValue[i := pot];
      if editMode == TWIN {
        SetParameter(0, 2 + i, pot);
        SetParameter(1, 2 + i, pot);
        CopyParameter(0, 2 + i, pot);
        CopyParameter(1, 2 + i, pot);
      } else if editMode == SPLIT {
        SetParameter(1, i, pot);
        CopyParameter(1, i, pot);
      } else {
        SetParameter(editMode - FIRST, 2 + i, pot);
        CopyParameter(editMode - FIRST, 2 + i, pot);
      }
    }

    method AlgorithmUI(input: Input)
      requires Valid() && LegalInput(input)
      modifies this
      ensures Valid() && View() == Tick(old(View()), input)
      ensures flash == old(flash) && pageBuffer == old(pageBuffer)
    {
      LeftButton(input.leftSw);
      RightButton(input.rightSw);
      ghost var u := View();
      for i := 0 to 2
        invariant Valid() && flash == old(flash) && pageBuffer == old(pageBuffer)
        invariant i == 0 ==> View() == u
        invariant i == 1 ==> View() == Encoder(u, 0, input.enc[0])
        invariant i == 2 ==> View() == Encoders(u, input)
      {
        TurnEncoder(i, input.enc[i]);
      }
      u := View();
      for i := 0 to 2
        invariant Valid() && flash == old(flash) && pageBuffer == old(pageBuffer)
        invariant i == 0 ==> View() == u
        invariant i == 1 ==> View() == Pot(u, 0, input.pot[0])
        invariant i == 2 ==> View() == Pots(u, input)
      {
        MovePot(i, input.pot[i]);
      }
    }

    /** NVMOpWithAudioService: starts the operation and services the audio until it is done. `inputs` are what
      the user interface finds in that time. */
    method NVMOpWithAudioService(inputs: seq<Input>)
      requires Valid() && forall i :: i in inputs ==> LegalInput(i)
      modifies this
      ensures Valid() && View() == Ticks(old(View()), inputs)
      ensures flash == old(flash) && pageBuffer == old(pageBuffer)
    {
      for k := 0 to |inputs|
        invariant Valid() && View() == Ticks(old(View()), inputs[..k])
        invariant flash == old(flash) && pageBuffer == old(pageBuffer)
      {
        assert inputs[..k + 1][..k] == inputs[..k] && inputs[k] in inputs;
        AlgorithmUI(inputs[k]);
      }
      assert inputs[..|inputs|] == inputs;
    }

    /** The erase and the write take effect when they end; the row is taken from the buffer when the write starts. */
    method AlgorithmIdle(erasing: seq<Input>, writing: seq<Input>)
      requires Valid() && LegalEvent(Save(erasing, writing))
      modifies this
      ensures Valid() && World(View(), flash) == Idle(old(World(View(), flash)), erasing, writing)
    {
      if writeToFlash {
        writeToFlash := false;
        NVMOpWithAudioService(erasing);
        flash := ERASED;
        pageBuffer := Flash(MAGIC, editMode, functions[0], functions[1]);
        var row := pageBuffer;
        NVMOpWithAudioService(writing);
        flash := row;
      }
    }

    /** algorithm_init */
    constructor (flash: Flash)
      requires Written(flash)
      ensures Valid() && View() == Boot(flash) && this.flash == flash
    {
      this.flash, pageBuffer := flash, ERASED;
      lastEncSw, holdCounter := [true, true], [0, 0];
      encoderValue, potValue := [0, 0], [0, 0];
      processorParams := [[0, 0, 0, 0], [0, 0, 0, 0]];
      writeToFlash := false;
      processors := [NEW_PROCESSOR, NEW_PROCESSOR];
      editMode := TWIN;
      functions := [FUNCTION_ENVELOPE, FUNCTION_ENVELOPE];
      new;
      if flash.magic == MAGIC {
        editMode := flash.mode;
        SetFunction(0, flash.function0);
        SetFunction(1, flash.function1);
      }
    }
  }
}
