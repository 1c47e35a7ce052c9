/** Instruction boundaries in a flat sequence of words (src/decoder.c with src/instruction.c). */
module InstructionStream {
  import opened Instructions
  import opened Words
  import opened Wrappers

  import Decoder

  /** An instruction with the word that follows it when its operand is an immediate. */
  datatype Step = Step(instruction: Instruction, immediate: Option<uint64>)

  predicate ValidStep(step: Step) {
    Decoder.WellFormed(step.instruction) && (step.immediate.Some? <==> step.instruction.op1Addr == Imm)
  }

  predicate ValidSteps(steps: seq<Step>) {
    forall i :: 0 <= i < |steps| ==> ValidStep(steps[i])
  }

  function StepWords(step: Step): (words: seq<uint64>)
    requires ValidStep(step)
    ensures |words| == InstructionSize(step.instruction)
  {
    [Decoder.Encode(step.instruction)] + match step.immediate case Some(word) => [word] case None => []
  }

  function Flatten(steps: seq<Step>): seq<uint64>
    requires ValidSteps(steps)
  {
    if steps == [] then [] else StepWords(steps[0]) + Flatten(steps[1..])
  }

  /** The step that starts a sequence of words. */
  function FirstStep(words: seq<uint64>): (step: Option<Step>)
    requires words != []
    ensures step.Some? ==> InstructionSize(step.value.instruction) <= |words|
  {
    match Decoder.Decode(words[0])
    case Refused(_) => None
    case Decoded(instruction) =>
      var size := InstructionSize(instruction);
      if |words| < size then None
      else Some(Step(instruction, if size == 2 then Some(words[1]) else None))
  }

  /** Steps through the words by the size of each decoded instruction, up to the exact end. */
  function Walk(words: seq<uint64>): Option<seq<Step>>
    decreases |words|
  {
    if words == [] then Some([])
    else match FirstStep(words)
      case None => None
      case Some(step) =>
        match Walk(words[InstructionSize(step.instruction)..])
        case None => None
        case Some(rest) => Some([step] + rest)
  }

  lemma FirstStepOfWords(step: Step, rest: seq<uint64>)
    requires ValidStep(step)
    ensures FirstStep(StepWords(step) + rest) == Some(step)
  {
    Decoder.DecodeInvertsEncode(step.instruction);
    var words := StepWords(step) + rest;
    assert words[0] == Decoder.Encode(step.instruction);
  }

  lemma WordsOfFirstStep(words: seq<uint64>)
    requires words != [] && FirstStep(words).Some?
    ensures var step := FirstStep(words).value;
      ValidStep(step) && StepWords(step) == words[..InstructionSize(step.instruction)]
  {
    Decoder.EncodeInvertsDecode(words[0]);
  }

  /** Walking the words of valid steps ends at the end of the words and finds the same steps. */
  lemma {:induction false} WalkInvertsFlatten(steps: seq<Step>)
    requires ValidSteps(steps)
    ensures Walk(Flatten(steps)) == Some(steps)
  {
    if steps == [] {
    } else {
      var head, rest := StepWords(steps[0]), Flatten(steps[1..]);
      WalkInvertsFlatten(steps[1..]);
      FirstStepOfWords(steps[0], rest);
      assert (head + rest)[|head|..] == rest;
      assert [steps[0]] + steps[1..] == steps;
    }
  }

  lemma FlattenPrepended(step: Step, rest: seq<Step>)
    requires ValidStep(step) && ValidSteps(rest)
    ensures ValidSteps([step] + rest) && Flatten([step] + rest) == StepWords(step) + Flatten(rest)
  {
  }

  /** Whatever words can be walked to the end are the words of the valid steps that were found. */
  lemma {:induction false} FlattenInvertsWalk(words: seq<uint64>)
    requires Walk(words).Some?
    ensures ValidSteps(Walk(words).value) && Flatten(Walk(words).value) == words
    decreases |words|
  {
    if words == [] {
    } else {
      var step := FirstStep(words).value;
      var size := InstructionSize(step.instruction);
      WordsOfFirstStep(words);
      FlattenInvertsWalk(words[size..]);
      FlattenPrepended(step, Walk(words[size..]).value);
      assert words == words[..size] + words[size..];
    }
  }
}
