/** The table of hash2 weights: a shuffle of the numbers 0 to 255. */
module Weights {

  // The weight at each key position, 32 positions to a function.

  function RandomNum0(i: nat): (w: nat)
    ensures w < 256
  {
    match i
    case 0 => 14 case 1 => 182 case 2 => 49 case 3 => 60 case 4 => 211 case 5 => 165 case 6 => 125 case 7 => 232
    case 8 => 71 case 9 => 166 case 10 => 133 case 11 => 237 case 12 => 13 case 13 => 78 case 14 => 76 case 15 => 25
    case 16 => 215 case 17 => 221 case 18 => 108 case 19 => 140 case 20 => 254 case 21 => 53 case 22 => 119 case 23 => 79
    case 24 => 239 case 25 => 113 case 26 => 188 case 27 => 126 case 28 => 157 case 29 => 144 case 30 => 121 case _ => 34
  }

  function RandomNum1(i: nat): (w: nat)
    ensures w < 256
  {
    match i
    case 0 => 50 case 1 => 197 case 2 => 66 case 3 => 82 case 4 => 106 case 5 => 247 case 6 => 47 case 7 => 158
    case 8 => 44 case 9 => 201 case 10 => 136 case 11 => 85 case 12 => 175 case 13 => 220 case 14 => 167 case 15 => 130
    case 16 => 147 case 17 => 90 case 18 => 74 case 19 => 253 case 20 => 186 case 21 => 185 case 22 => 84 case 23 => 97
    case 24 => 217 case 25 => 226 case 26 => 7 case 27 => 218 case 28 => 141 case 29 => 69 case 30 => 139 case _ => 6
  }

  function RandomNum2(i: nat): (w: nat)
    ensures w < 256
  {
    match i
    case 0 => 142 case 1 => 143 case 2 => 98 case 3 => 240 case 4 => 195 case 5 => 42 case 6 => 173 case 7 => 63
    case 8 => 159 case 9 => 5 case 10 => 255 case 11 => 8 case 12 => 161 case 13 => 123 case 14 => 200 case 15 => 245
    case 16 => 146 case 17 => 48 case 18 => 251 case 19 => 4 case 20 => 110 case 21 => 250 case 22 => 212 case 23 => 30
    case 24 => 223 case 25 => 190 case 26 => 231 case 27 => 21 case 28 => 229 case 29 => 72 case 30 => 205 case _ => 95
  }

  function RandomNum3(i: nat): (w: nat)
    ensures w < 256
  {
    match i
    case 0 => 162 case 1 => 118 case 2 => 174 case 3 => 227 case 4 => 180 case 5 => 57 case 6 => 209 case 7 => 70
    case 8 => 94 case 9 => 11 case 10 => 135 case 11 => 155 case 12 => 28 case 13 => 154 case 14 => 179 case 15 => 152
    case 16 => 35 case 17 => 127 case 18 => 129 case 19 => 100 case 20 => 132 case 21 => 204 case 22 => 107 case 23 => 243
    case 24 => 145 case 25 => 138 case 26 => 101 case 27 => 248 case 28 => 23 case 29 => 228 case 30 => 83 case _ => 91
  }

  function RandomNum4(i: nat): (w: nat)
    ensures w < 256
  {
    match i
    case 0 => 164 case 1 => 156 case 2 => 210 case 3 => 40 case 4 => 134 case 5 => 81 case 6 => 187 case 7 => 89
    case 8 => 171 case 9 => 170 case 10 => 103 case 11 => 58 case 12 => 31 case 13 => 208 case 14 => 214 case 15 => 196
    case 16 => 55 case 17 => 169 case 18 => 149 case 19 => 15 case 20 => 32 case 21 => 236 case 22 => 216 case 23 => 99
    case 24 => 54 case 25 => 0 case 26 => 202 case 27 => 234 case 28 => 61 case 29 => 2 case 30 => 199 case _ => 59
  }

  function RandomNum5(i: nat): (w: nat)
    ensures w < 256
  {
    match i
    case 0 => 230 case 1 => 20 case 2 => 150 case 3 => 39 case 4 => 43 case 5 => 177 case 6 => 12 case 7 => 86
    case 8 => 178 case 9 => 10 case 10 => 16 case 11 => 75 case 12 => 225 case 13 => 112 case 14 => 176 case 15 => 219
    case 16 => 189 case 17 => 26 case 18 => 41 case 19 => 233 case 20 => 122 case 21 => 117 case 22 => 109 case 23 => 64
    case 24 => 224 case 25 => 27 case 26 => 193 case 27 => 116 case 28 => 87 case 29 => 192 case 30 => 33 case _ => 191
  }

  function RandomNum6(i: nat): (w: nat)
    ensures w < 256
  {
    match i
    case 0 => 244 case 1 => 62 case 2 => 115 case 3 => 172 case 4 => 203 case 5 => 252 case 6 => 111 case 7 => 222
    case 8 => 238 case 9 => 183 case 10 => 38 case 11 => 213 case 12 => 105 case 13 => 92 case 14 => 194 case 15 => 3
    case 16 => 102 case 17 => 235 case 18 => 80 case 19 => 56 case 20 => 168 case 21 => 51 case 22 => 65 case 23 => 68
    case 24 => 17 case 25 => 93 case 26 => 77 case 27 => 67 case 28 => 184 case 29 => 246 case 30 => 128 case _ => 207
  }

  function RandomNum7(i: nat): (w: nat)
    ensures w < 256
  {
    match i
    case 0 => 131 case 1 => 9 case 2 => 137 case 3 => 181 case 4 => 22 case 5 => 163 case 6 => 242 case 7 => 37
    case 8 => 114 case 9 => 24 case 10 => 52 case 11 => 206 case 12 => 45 case 13 => 104 case 14 => 1 case 15 => 148
    case 16 => 19 case 17 => 160 case 18 => 36 case 19 => 18 case 20 => 198 case 21 => 29 case 22 => 249 case 23 => 46
    case 24 => 96 case 25 => 124 case 26 => 241 case 27 => 120 case 28 => 151 case 29 => 88 case 30 => 73 case _ => 153
  }

  /** The weight of each key position in hash2. */
  function RandomNum(i: nat): (w: nat)
    ensures w < 256
  {
    if i < 32 then RandomNum0(i)
    else if i < 64 then RandomNum1(i - 32)
    else if i < 96 then RandomNum2(i - 64)
    else if i < 128 then RandomNum3(i - 96)
    else if i < 160 then RandomNum4(i - 128)
    else if i < 192 then RandomNum5(i - 160)
    else if i < 224 then RandomNum6(i - 192)
    else RandomNum7(i - 224)
  }

  // The position of each weight, 32 weights to a function.

  function Position0(i: nat): (w: nat)
    ensures w < 256
  {
    match i
    case 0 => 153 case 1 => 238 case 2 => 157 case 3 => 207 case 4 => 83 case 5 => 73 case 6 => 63 case 7 => 58
    case 8 => 75 case 9 => 225 case 10 => 169 case 11 => 105 case 12 => 166 case 13 => 12 case 14 => 0 case 15 => 147
    case 16 => 170 case 17 => 216 case 18 => 243 case 19 => 240 case 20 => 161 case 21 => 91 case 22 => 228 case 23 => 124
    case 24 => 233 case 25 => 15 case 26 => 177 case 27 => 185 case 28 => 108 case 29 => 245 case 30 => 87 case _ => 140
  }

  function Position1(i: nat): (w: nat)
    ensures w < 256
  {
    match i
    case 0 => 148 case 1 => 190 case 2 => 31 case 3 => 112 case 4 => 242 case 5 => 231 case 6 => 202 case 7 => 163
    case 8 => 131 case 9 => 178 case 10 => 69 case 11 => 164 case 12 => 40 case 13 => 236 case 14 => 247 case 15 => 38
    case 16 => 81 case 17 => 2 case 18 => 32 case 19 => 213 case 20 => 234 case 21 => 21 case 22 => 152 case 23 => 144
    case 24 => 211 case 25 => 101 case 26 => 139 case 27 => 159 case 28 => 3 case 29 => 156 case 30 => 193 case _ => 71
  }

  function Position2(i: nat): (w: nat)
    ensures w < 256
  {
    match i
    case 0 => 183 case 1 => 214 case 2 => 34 case 3 => 219 case 4 => 215 case 5 => 61 case 6 => 103 case 7 => 8
    case 8 => 93 case 9 => 254 case 10 => 50 case 11 => 171 case 12 => 14 case 13 => 218 case 14 => 13 case 15 => 23
    case 16 => 210 case 17 => 133 case 18 => 35 case 19 => 126 case 20 => 54 case 21 => 43 case 22 => 167 case 23 => 188
    case 24 => 253 case 25 => 135 case 26 => 49 case 27 => 127 case 28 => 205 case 29 => 217 case 30 => 104 case _ => 95
  }

  function Position3(i: nat): (w: nat)
    ensures w < 256
  {
    match i
    case 0 => 248 case 1 => 55 case 2 => 66 case 3 => 151 case 4 => 115 case 5 => 122 case 6 => 208 case 7 => 138
    case 8 => 237 case 9 => 204 case 10 => 36 case 11 => 118 case 12 => 18 case 13 => 182 case 14 => 84 case 15 => 198
    case 16 => 173 case 17 => 25 case 18 => 232 case 19 => 194 case 20 => 187 case 21 => 181 case 22 => 97 case 23 => 22
    case 24 => 251 case 25 => 30 case 26 => 180 case 27 => 77 case 28 => 249 case 29 => 6 case 30 => 27 case _ => 113
  }

  function Position4(i: nat): (w: nat)
    ensures w < 256
  {
    match i
    case 0 => 222 case 1 => 114 case 2 => 47 case 3 => 224 case 4 => 116 case 5 => 10 case 6 => 132 case 7 => 106
    case 8 => 42 case 9 => 226 case 10 => 121 case 11 => 62 case 12 => 19 case 13 => 60 case 14 => 64 case 15 => 65
    case 16 => 29 case 17 => 120 case 18 => 80 case 19 => 48 case 20 => 239 case 21 => 146 case 22 => 162 case 23 => 252
    case 24 => 111 case 25 => 255 case 26 => 109 case 27 => 107 case 28 => 129 case 29 => 28 case 30 => 39 case _ => 72
  }

  function Position5(i: nat): (w: nat)
    ensures w < 256
  {
    match i
    case 0 => 241 case 1 => 76 case 2 => 96 case 3 => 229 case 4 => 128 case 5 => 5 case 6 => 9 case 7 => 46
    case 8 => 212 case 9 => 145 case 10 => 137 case 11 => 136 case 12 => 195 case 13 => 70 case 14 => 98 case 15 => 44
    case 16 => 174 case 17 => 165 case 18 => 168 case 19 => 110 case 20 => 100 case 21 => 227 case 22 => 1 case 23 => 201
    case 24 => 220 case 25 => 53 case 26 => 52 case 27 => 134 case 28 => 26 case 29 => 176 case 30 => 89 case _ => 191
  }

  function Position6(i: nat): (w: nat)
    ensures w < 256
  {
    match i
    case 0 => 189 case 1 => 186 case 2 => 206 case 3 => 68 case 4 => 143 case 5 => 33 case 6 => 244 case 7 => 158
    case 8 => 78 case 9 => 41 case 10 => 154 case 11 => 196 case 12 => 117 case 13 => 94 case 14 => 235 case 15 => 223
    case 16 => 141 case 17 => 102 case 18 => 130 case 19 => 4 case 20 => 86 case 21 => 203 case 22 => 142 case 23 => 16
    case 24 => 150 case 25 => 56 case 26 => 59 case 27 => 175 case 28 => 45 case 29 => 17 case 30 => 199 case _ => 88
  }

  function Position7(i: nat): (w: nat)
    ensures w < 256
  {
    match i
    case 0 => 184 case 1 => 172 case 2 => 57 case 3 => 99 case 4 => 125 case 5 => 92 case 6 => 160 case 7 => 90
    case 8 => 7 case 9 => 179 case 10 => 155 case 11 => 209 case 12 => 149 case 13 => 11 case 14 => 200 case 15 => 24
    case 16 => 67 case 17 => 250 case 18 => 230 case 19 => 119 case 20 => 192 case 21 => 79 case 22 => 221 case 23 => 37
    case 24 => 123 case 25 => 246 case 26 => 85 case 27 => 82 case 28 => 197 case 29 => 51 case 30 => 20 case _ => 74
  }

  /** The key position a weight belongs to. */
  function PositionOf(i: nat): (w: nat)
    ensures w < 256
  {
    if i < 32 then Position0(i)
    else if i < 64 then Position1(i - 32)
    else if i < 96 then Position2(i - 64)
    else if i < 128 then Position3(i - 96)
    else if i < 160 then Position4(i - 128)
    else if i < 192 then Position5(i - 160)
    else if i < 224 then Position6(i - 192)
    else Position7(i - 224)
  }

  lemma Shuffled0(i: nat)
    requires 0 <= i < 32
    ensures PositionOf(RandomNum(i)) == i
  {
  }

  lemma Unshuffled0(i: nat)
    requires 0 <= i < 32
    ensures RandomNum(PositionOf(i)) == i
  {
  }

  lemma Shuffled1(i: nat)
    requires 32 <= i < 64
    ensures PositionOf(RandomNum(i)) == i
  {
  }

  lemma Unshuffled1(i: nat)
    requires 32 <= i < 64
    ensures RandomNum(PositionOf(i)) == i
  {
  }

  lemma Shuffled2(i: nat)
    requires 64 <= i < 96
    ensures PositionOf(RandomNum(i)) == i
  {
  }

  lemma Unshuffled2(i: nat)
    requires 64 <= i < 96
    ensures RandomNum(PositionOf(i)) == i
  {
  }

  lemma Shuffled3(i: nat)
    requires 96 <= i < 128
    ensures PositionOf(RandomNum(i)) == i
  {
  }

  lemma Unshuffled3(i: nat)
    requires 96 <= i < 128
    ensures RandomNum(PositionOf(i)) == i
  {
  }

  lemma Shuffled4(i: nat)
    requires 128 <= i < 160
    ensures PositionOf(RandomNum(i)) == i
  {
  }

  lemma Unshuffled4(i: nat)
    requires 128 <= i < 160
    ensures RandomNum(PositionOf(i)) == i
  {
  }

  lemma Shuffled5(i: nat)
    requires 160 <= i < 192
    ensures PositionOf(RandomNum(i)) == i
  {
  }

  lemma Unshuffled5(i: nat)
    requires 160 <= i < 192
    ensures RandomNum(PositionOf(i)) == i
  {
  }

  lemma Shuffled6(i: nat)
    requires 192 <= i < 224
    ensures PositionOf(RandomNum(i)) == i
  {
  }

  lemma Unshuffled6(i: nat)
    requires 192 <= i < 224
    ensures RandomNum(PositionOf(i)) == i
  {
  }

  lemma Shuffled7(i: nat)
    requires 224 <= i < 256
    ensures PositionOf(RandomNum(i)) == i
  {
  }

  lemma Unshuffled7(i: nat)
    requires 224 <= i < 256
    ensures RandomNum(PositionOf(i)) == i
  {
  }

  /** Every number below 256 is the weight of exactly one position. */
  lemma WeightsArePermutation(i: nat)
    requires i < 256
    ensures PositionOf(RandomNum(i)) == i
    ensures RandomNum(PositionOf(i)) == i
  {
    hide RandomNum, PositionOf;
    if i < 32 {
      Shuffled0(i);
      Unshuffled0(i);
    } else if i < 64 {
      Shuffled1(i);
      Unshuffled1(i);
    } else if i < 96 {
      Shuffled2(i);
      Unshuffled2(i);
    } else if i < 128 {
      Shuffled3(i);
      Unshuffled3(i);
    } else if i < 160 {
      Shuffled4(i);
      Unshuffled4(i);
    } else if i < 192 {
      Shuffled5(i);
      Unshuffled5(i);
    } else if i < 224 {
      Shuffled6(i);
      Unshuffled6(i);
    } else {
      Shuffled7(i);
      Unshuffled7(i);
    }
  }

  /** The weights of positions 0 to 63, sixteen at a time. */
  lemma WeightsFrom0(s: seq<nat>)
    requires |s| == 64 && forall i :: 0 <= i < 64 ==> s[i] == RandomNum(0 + i)
    ensures s[0..16] == [14, 182, 49, 60, 211, 165, 125, 232, 71, 166, 133, 237, 13, 78, 76, 25]
    ensures s[16..32] == [215, 221, 108, 140, 254, 53, 119, 79, 239, 113, 188, 126, 157, 144, 121, 34]
    ensures s[32..48] == [50, 197, 66, 82, 106, 247, 47, 158, 44, 201, 136, 85, 175, 220, 167, 130]
    ensures s[48..64] == [147, 90, 74, 253, 186, 185, 84, 97, 217, 226, 7, 218, 141, 69, 139, 6]
  {
  }

  /** The weights of positions 64 to 127, sixteen at a time. */
  lemma WeightsFrom64(s: seq<nat>)
    requires |s| == 64 && forall i :: 0 <= i < 64 ==> s[i] == RandomNum(64 + i)
    ensures s[0..16] == [142, 143, 98, 240, 195, 42, 173, 63, 159, 5, 255, 8, 161, 123, 200, 245]
    ensures s[16..32] == [146, 48, 251, 4, 110, 250, 212, 30, 223, 190, 231, 21, 229, 72, 205, 95]
    ensures s[32..48] == [162, 118, 174, 227, 180, 57, 209, 70, 94, 11, 135, 155, 28, 154, 179, 152]
    ensures s[48..64] == [35, 127, 129, 100, 132, 204, 107, 243, 145, 138, 101, 248, 23, 228, 83, 91]
  {
  }

  /** The weights of positions 128 to 191, sixteen at a time. */
  lemma WeightsFrom128(s: seq<nat>)
    requires |s| == 64 && forall i :: 0 <= i < 64 ==> s[i] == RandomNum(128 + i)
    ensures s[0..16] == [164, 156, 210, 40, 134, 81, 187, 89, 171, 170, 103, 58, 31, 208, 214, 196]
    ensures s[16..32] == [55, 169, 149, 15, 32, 236, 216, 99, 54, 0, 202, 234, 61, 2, 199, 59]
    ensures s[32..48] == [230, 20, 150, 39, 43, 177, 12, 86, 178, 10, 16, 75, 225, 112, 176, 219]
    ensures s[48..64] == [189, 26, 41, 233, 122, 117, 109, 64, 224, 27, 193, 116, 87, 192, 33, 191]
  {
  }

  /** The weights of positions 192 to 255, sixteen at a time. */
  lemma WeightsFrom192(s: seq<nat>)
    requires |s| == 64 && forall i :: 0 <= i < 64 ==> s[i] == RandomNum(192 + i)
    ensures s[0..16] == [244, 62, 115, 172, 203, 252, 111, 222, 238, 183, 38, 213, 105, 92, 194, 3]
    ensures s[16..32] == [102, 235, 80, 56, 168, 51, 65, 68, 17, 93, 77, 67, 184, 246, 128, 207]
    ensures s[32..48] == [131, 9, 137, 181, 22, 163, 242, 37, 114, 24, 52, 206, 45, 104, 1, 148]
    ensures s[48..64] == [19, 160, 36, 18, 198, 29, 249, 46, 96, 124, 241, 120, 151, 88, 73, 153]
  {
  }

  /** The constant array the hash loop indexes. */
  method RandomTable() returns (randomNums: seq<nat>)
    ensures |randomNums| == 256
    ensures forall i :: 0 <= i < 256 ==> randomNums[i] == RandomNum(i)
  {
    randomNums := seq(256, i requires 0 <= i => RandomNum(i));
  }
}
